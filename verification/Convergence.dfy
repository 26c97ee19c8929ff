/** Offers of one file to many devices: when delivery order does not matter. */
module Convergence {
  import opened Versions
  import opened FileTypes
  import opened Arbitration
  import opened Paths
  import opened Replication

  /** The entry held after a sequence of offers. */
  ghost function Held(local: FileInfo, offers: seq<FileInfo>): FileInfo
    decreases |offers|
  {
    if offers == [] then local else Held(Accept(local, offers[0]), offers[1..])
  }

  /** Entries with one version have one modification time. */
  ghost predicate OneMtimePerVersion(all: seq<FileInfo>) {
    forall x, y :: x in all && y in all && SameVersion(x.version, y.version) ==> SameMtime(x, y)
  }

  ghost predicate CausalClocks(all: seq<FileInfo>) {
    forall x, y :: x in all && y in all ==> ClockOk(x, y)
  }

  /** A device holding `local` is offered entries of `all`, in any order and with any
      repetition, until it has seen every one. */
  ghost predicate Delivery(all: seq<FileInfo>, local: FileInfo, offers: seq<FileInfo>) {
    && local in all
    && (forall x :: x in offers ==> x in all)
    && (forall x :: x in all ==> x == local || x in offers)
  }

  /** `w` is beaten by nothing and beats every entry of another version. */
  ghost predicate BeatsAll(all: seq<FileInfo>, w: FileInfo) {
    w in all && forall x :: x in all ==> SameVersion(x.version, w.version) || Beats(w, x)
  }

  /** Every entry of `w`'s version beats every entry of another version. */
  ghost predicate VersionWins(all: seq<FileInfo>, w: FileInfo) {
    w in all &&
    forall x, y | x in all && y in all && SameVersion(x.version, w.version) && !SameVersion(y.version, w.version) ::
      Beats(x, y)
  }

  /** All deliveries of `all`, to any number of devices, end in the same version. */
  ghost predicate OrderIndependent(all: seq<FileInfo>) {
    forall a, s, b, t :: Delivery(all, a, s) && Delivery(all, b, t) ==>
      SameVersion(Held(a, s).version, Held(b, t).version)
  }

  lemma {:induction false} HeldIsOffered(local: FileInfo, offers: seq<FileInfo>)
    ensures Held(local, offers) == local || Held(local, offers) in offers
    decreases |offers|
  {
    hide Accept;
    if offers != [] {
      HeldIsOffered(Accept(local, offers[0]), offers[1..]);
      AcceptIsOneOf(local, offers[0]);
      assert offers[0] in offers && forall x :: x in offers[1..] ==> x in offers;
    }
  }

  lemma {:induction false} AcceptIsOneOf(local: FileInfo, remote: FileInfo)
    ensures Accept(local, remote) == local || Accept(local, remote) == remote
  {
  }

  /** Once the winning version is held it stays, and it is taken as soon as it is offered. */
  lemma {:induction false} WinnerIsHeld(all: seq<FileInfo>, w: FileInfo, local: FileInfo, offers: seq<FileInfo>)
    requires VersionWins(all, w)
    requires local in all && forall x :: x in offers ==> x in all
    requires SameVersion(local.version, w.version) || w in offers
    ensures SameVersion(Held(local, offers).version, w.version)
    decreases |offers|
  {
    hide Accept, Beats, SameVersion;
    if offers == [] {
    } else {
      var x := offers[0];
      AcceptIsOneOf(local, x);
      assert x in offers && forall y :: y in offers[1..] ==> y in offers;
      if SameVersion(local.version, w.version) {
        WinnerStays(all, w, local, x);
      } else if x == w {
        SameVersionReflexive(w.version);
        BeatsReplaces(w, local);
      } else {
        assert w in offers[1..];
      }
      WinnerIsHeld(all, w, Accept(local, x), offers[1..]);
    }
  }

  lemma {:induction false} BeatsReplaces(w: FileInfo, local: FileInfo)
    requires Beats(w, local)
    ensures Accept(local, w) == w && SameVersion(w.version, w.version)
  {
  }

  lemma {:induction false} WinnerStays(all: seq<FileInfo>, w: FileInfo, local: FileInfo, x: FileInfo)
    requires VersionWins(all, w)
    requires local in all && x in all && SameVersion(local.version, w.version)
    ensures SameVersion(Accept(local, x).version, w.version)
  {
    hide Accept, Beats;
    if SameVersion(x.version, w.version) {
      AcceptIsOneOf(local, x);
    } else {
      Loser(local, x);
    }
  }

  lemma {:induction false} Loser(local: FileInfo, x: FileInfo)
    requires Beats(local, x)
    ensures Accept(local, x) == local
  {
  }

  /** A version that does not win has an entry that some entry of another version beats. */
  lemma {:induction false} SomethingBeats(all: seq<FileInfo>, w: FileInfo) returns (x: FileInfo, y: FileInfo)
    requires w in all && !VersionWins(all, w)
    ensures x in all && y in all && SameVersion(x.version, w.version) && Beats(y, x)
  {
    hide Accept;
    x, y :| x in all && y in all && SameVersion(x.version, w.version)
         && !SameVersion(y.version, w.version) && !Beats(x, y);
    if SameVersion(x.version, y.version) {
      SameVersionSymmetric(x.version, y.version);
      SameVersionTransitive(y.version, x.version, w.version);
    }
    ExactlyOneBeats(x, y);
  }

  ghost function WithVersion(all: seq<FileInfo>, w: FileInfo, same: bool): (r: seq<FileInfo>)
    ensures forall x :: x in r <==> x in all && SameVersion(x.version, w.version) == same
  {
    if all == [] then []
    else
      var rest := WithVersion(all[1..], w, same);
      assert forall x :: x in all <==> x == all[0] || x in all[1..];
      if SameVersion(all[0].version, w.version) == same then [all[0]] + rest else rest
  }

  lemma {:induction false} HeldSplit(local: FileInfo, a: seq<FileInfo>, b: seq<FileInfo>)
    ensures Held(local, a + b) == Held(Held(local, a), b)
    decreases |a|
  {
    hide Accept;
    if a == [] {
      assert a + b == b;
    } else {
      HeldSplit(Accept(local, a[0]), a[1..], b);
      assert (a + b)[1..] == a[1..] + b;
    }
  }

  /** Offers of a version already held change nothing. */
  lemma {:induction false} SameVersionOffers(local: FileInfo, offers: seq<FileInfo>)
    requires forall x :: x in offers ==> SameVersion(x.version, local.version)
    ensures Held(local, offers) == local
  {
    hide Accept;
    if offers != [] {
      assert offers[0] in offers;
      SameVersionKeeps(local, offers[0]);
      SameVersionOffers(local, offers[1..]);
    }
  }

  /** Delivering `w`, then something that beats it, then only other versions, loses `w`. */
  lemma {:induction false} LosingDelivery(all: seq<FileInfo>, w: FileInfo, x: FileInfo) returns (offers: seq<FileInfo>)
    requires w in all && x in all && Beats(x, w)
    ensures Delivery(all, w, offers)
    ensures !SameVersion(Held(w, offers).version, w.version)
  {
    hide Accept, WithVersion, SameVersion, Held;
    var same, others := WithVersion(all, w, true), [x] + WithVersion(all, w, false);
    offers := same + others;
    forall y | y in all
      ensures y in offers
    {
      assert y in same || y in WithVersion(all, w, false);
    }
    HeldSplit(w, same, others);
    SameVersionOffers(w, same);
    LosesTo(w, x, others);
  }

  lemma {:induction false} LosesTo(w: FileInfo, x: FileInfo, others: seq<FileInfo>)
    requires Beats(x, w)
    requires others != [] && others[0] == x
    requires forall y :: y in others ==> y == x || !SameVersion(y.version, w.version)
    ensures !SameVersion(Held(w, others).version, w.version)
  {
    hide Accept;
    BeatsReplaces(x, w);
    HeldIsOffered(x, others[1..]);
    assert x in others && forall y :: y in others[1..] ==> y in others;
  }

  /** Delivery order does not matter exactly when all entries of one version beat all others. */
  lemma {:induction false} OrderIndependentIff(all: seq<FileInfo>)
    requires all != []
    ensures OrderIndependent(all) <==> exists w :: VersionWins(all, w)
  {
    hide Accept, Beats, Held, VersionWins, Delivery, SameVersion;
    if w :| VersionWins(all, w) {
      forall a, s, b, t | Delivery(all, a, s) && Delivery(all, b, t)
        ensures SameVersion(Held(a, s).version, Held(b, t).version)
      {
        DeliveredWinner(all, w, a, s);
        DeliveredWinner(all, w, b, t);
        SameVersionSymmetric(Held(b, t).version, w.version);
        SameVersionTransitive(Held(a, s).version, w.version, Held(b, t).version);
      }
    } else {
      var w := AllDelivered(all);
      var x, y := SomethingBeats(all, w);
      var offers := LosingDelivery(all, x, y);
      if SameVersion(Held(x, offers).version, w.version) {
        SameVersionSymmetric(x.version, w.version);
        SameVersionTransitive(Held(x, offers).version, w.version, x.version);
      }
    }
  }

  lemma {:induction false} SameVersionReflexive(v: Vector)
    ensures SameVersion(v, v)
  {
  }

  lemma {:induction false} SameVersionSymmetric(v: Vector, w: Vector)
    requires SameVersion(v, w)
    ensures SameVersion(w, v)
  {
  }

  lemma {:induction false} DeliveredWinner(all: seq<FileInfo>, w: FileInfo, local: FileInfo, offers: seq<FileInfo>)
    requires VersionWins(all, w) && Delivery(all, local, offers)
    ensures SameVersion(Held(local, offers).version, w.version)
  {
    hide Accept, Beats, Held;
    WinnerIsHeld(all, w, local, offers);
  }

  lemma {:induction false} AllDelivered(all: seq<FileInfo>) returns (w: FileInfo)
    requires all != []
    ensures Delivery(all, all[0], all)
    ensures w == Held(all[0], all) && w in all
  {
    hide Accept, Held;
    w := Held(all[0], all);
    HeldIsOffered(all[0], all);
  }

  // ---- Clocks that follow causality ----

  ghost predicate Largest(all: seq<FileInfo>, w: FileInfo) {
    w in all && forall x :: x in all ==> !KeyGreater(x, w)
  }

  lemma {:induction false} LargestExists(all: seq<FileInfo>) returns (w: FileInfo)
    requires all != []
    ensures Largest(all, w)
  {
    hide KeyGreater;
    if |all| == 1 {
      w := all[0];
      KeyTotal(w, w);
    } else {
      var m := LargestExists(all[1..]);
      var f := all[0];
      assert forall x :: x in all <==> x == f || x in all[1..];
      KeyTotal(f, m);
      KeyTotal(f, f);
      if KeyGreater(f, m) {
        w := f;
        forall x | x in all[1..]
          ensures !KeyGreater(x, f)
        {
          if KeyGreater(x, f) { KeyTransitive(x, f, m); }
        }
      } else {
        w := m;
      }
    }
  }

  /** With causal clocks, the entry with the largest key beats every other version. */
  lemma {:induction false} LargestBeatsAll(all: seq<FileInfo>, w: FileInfo)
    requires CausalClocks(all) && Largest(all, w)
    ensures BeatsAll(all, w)
  {
    hide Accept, KeyGreater, Beats, ClockOk;
    forall x | x in all
      ensures SameVersion(x.version, w.version) || Beats(w, x)
    {
      if !SameVersion(x.version, w.version) {
        BeatsIsKeyGreater(w, x);
        KeyTotal(w, x);
      }
    }
  }

  /** With one modification time per version, one winning entry makes its version win. */
  lemma {:induction false} WinnerSpeaksForVersion(all: seq<FileInfo>, w: FileInfo)
    requires OneMtimePerVersion(all) && BeatsAll(all, w)
    ensures VersionWins(all, w)
  {
    hide Accept, Beats, SameVersion;
    forall x, y | x in all && y in all && SameVersion(x.version, w.version) && !SameVersion(y.version, w.version)
      ensures Beats(x, y)
    {
      SameVersionSymmetric(x.version, w.version);
      BeatsRespectsVersion(w, x, y);
    }
  }

  /** Every entry of `w`'s version has a larger key than every entry of another version. */
  ghost predicate KeysAbove(all: seq<FileInfo>, w: FileInfo) {
    forall x, y | x in all && y in all && SameVersion(x.version, w.version) && !SameVersion(y.version, w.version) ::
      KeyGreater(x, y)
  }

  lemma {:induction false} VersionWinsIsKeysAbove(all: seq<FileInfo>, w: FileInfo)
    requires CausalClocks(all) && w in all
    ensures VersionWins(all, w) <==> KeysAbove(all, w)
  {
    hide Accept, Beats, SameVersion, KeyGreater, ClockOk;
    forall x, y | x in all && y in all && SameVersion(x.version, w.version) && !SameVersion(y.version, w.version)
      ensures Beats(x, y) <==> KeyGreater(x, y)
    {
      if SameVersion(x.version, y.version) {
        SameVersionSymmetric(x.version, y.version);
        SameVersionTransitive(y.version, x.version, w.version);
      }
      BeatsIsKeyGreater(x, y);
    }
  }

  /** With causal clocks every delivery ends in `w`'s version exactly when all entries of that
      version have larger keys than all entries of other versions. */
  lemma {:induction false} CausalClocksConvergeIff(all: seq<FileInfo>, w: FileInfo)
    requires CausalClocks(all) && w in all
    ensures (forall local, offers :: Delivery(all, local, offers) ==> SameVersion(Held(local, offers).version, w.version))
            <==> KeysAbove(all, w)
  {
    hide Accept, Beats, SameVersion, Held, Delivery, VersionWins, CausalClocks, KeysAbove;
    VersionWinsIsKeysAbove(all, w);
    if VersionWins(all, w) {
      forall local, offers | Delivery(all, local, offers)
        ensures SameVersion(Held(local, offers).version, w.version)
      {
        DeliveredWinner(all, w, local, offers);
      }
    } else {
      var x, y := SomethingBeats(all, w);
      var offers := LosingDelivery(all, x, y);
      if SameVersion(Held(x, offers).version, w.version) {
        SameVersionSymmetric(x.version, w.version);
        SameVersionTransitive(Held(x, offers).version, w.version, x.version);
      }
    }
  }

  /** With causal clocks every delivery, in any order and with any repetition, ends in the
      version with the largest (mtime seconds, nanoseconds, first divergent counter). */
  lemma {:induction false} CausalClocksConverge(all: seq<FileInfo>, w: FileInfo, local: FileInfo, offers: seq<FileInfo>)
    requires CausalClocks(all) && OneMtimePerVersion(all)
    requires Largest(all, w) && Delivery(all, local, offers)
    ensures SameVersion(Held(local, offers).version, w.version)
    ensures Largest(all, Held(local, offers))
    ensures OrderIndependent(all)
  {
    hide Accept, KeyGreater, Beats, ClockOk, Held, SameVersion;
    LargestBeatsAll(all, w);
    WinnerSpeaksForVersion(all, w);
    DeliveredWinner(all, w, local, offers);
    HeldIsOffered(local, offers);
    OrderIndependentIff(all);
    var h := Held(local, offers);
    forall x | x in all
      ensures !KeyGreater(x, h)
    {
      SameKey(w, h, x);
    }
  }

  lemma {:induction false} SameKey(w: FileInfo, h: FileInfo, x: FileInfo)
    requires SameVersion(h.version, w.version) && SameMtime(h, w)
    ensures KeyGreater(x, w) <==> KeyGreater(x, h)
  {
  }

  // ---- A device that does not hold the name ----

  /** The entry held by a device that starts without the name: tombstones are ignored
      until a live entry is offered. */
  ghost function HeldFromNothing(offers: seq<FileInfo>): Option<FileInfo> {
    if offers == [] then None
    else if offers[0].IsDeleted() then HeldFromNothing(offers[1..])
    else Some(Held(offers[0], offers[1..]))
  }

  ghost predicate FirstLive(offers: seq<FileInfo>, i: nat) {
    i < |offers| && !offers[i].IsDeleted() && forall j :: 0 <= j < i ==> offers[j].IsDeleted()
  }

  lemma {:induction false} HeldFromFirstLive(offers: seq<FileInfo>, i: nat)
    requires FirstLive(offers, i)
    ensures HeldFromNothing(offers) == Some(Held(offers[i], offers[i + 1..]))
  {
    hide Held;
    if i > 0 {
      HeldFromFirstLive(offers[1..], i - 1);
      assert offers[1..][i - 1 + 1..] == offers[i + 1..];
    }
  }

  /** Where one version wins, such a device ends with it exactly when an entry of that version is
      the first live one or comes after it. */
  lemma {:induction false} LateJoinerConvergesIff(offers: seq<FileInfo>, i: nat, w: FileInfo)
    requires VersionWins(offers, w) && FirstLive(offers, i)
    ensures HeldFromNothing(offers).Some?
    ensures SameVersion(HeldFromNothing(offers).value.version, w.version) <==>
            exists j :: i <= j < |offers| && SameVersion(offers[j].version, w.version)
  {
    hide Held, SameVersion, HeldFromNothing, Beats;
    HeldFromFirstLive(offers, i);
    var later, h := offers[i..], Held(offers[i], offers[i + 1..]);
    assert later == [offers[i]] + offers[i + 1..];
    HeldIsOffered(offers[i], offers[i + 1..]);
    assert h in later;
    if j :| i <= j < |offers| && SameVersion(offers[j].version, w.version) {
      assert later[j - i] == offers[j] && offers[j] in later;
      WinsAmong(offers, w, later, offers[j]);
      assert Delivery(later, offers[i], offers[i + 1..]);
      DeliveredWinner(later, offers[j], offers[i], offers[i + 1..]);
      SameVersionTransitive(h.version, offers[j].version, w.version);
    }
    if SameVersion(h.version, w.version) {
      var j :| 0 <= j < |later| && later[j] == h;
      assert offers[i + j] == h;
    }
  }

  lemma {:induction false} WinsAmong(all: seq<FileInfo>, w: FileInfo, some: seq<FileInfo>, v: FileInfo)
    requires VersionWins(all, w) && SameVersion(v.version, w.version) && v in some && forall x :: x in some ==> x in all
    ensures VersionWins(some, v)
  {
    hide SameVersion, Beats;
    forall x, y | x in some && y in some && SameVersion(x.version, v.version) && !SameVersion(y.version, v.version)
      ensures Beats(x, y)
    {
      SameVersionTransitive(x.version, v.version, w.version);
      if SameVersion(y.version, w.version) {
        SameVersionSymmetric(v.version, w.version);
        SameVersionTransitive(y.version, w.version, v.version);
      }
    }
  }

  /** With causal clocks, such a device ends with the largest entry exactly when a largest entry
      is the first live one or comes after it. */
  lemma {:induction false} LateJoinerLargestIff(offers: seq<FileInfo>, i: nat)
    requires CausalClocks(offers) && OneMtimePerVersion(offers) && FirstLive(offers, i)
    ensures HeldFromNothing(offers).Some?
    ensures Largest(offers, HeldFromNothing(offers).value) <==>
            exists j :: i <= j < |offers| && Largest(offers, offers[j])
  {
    hide Held, KeyGreater, ClockOk, SameVersion, HeldFromNothing;
    HeldFromFirstLive(offers, i);
    var later := offers[i..];
    var w := LargestExists(later);
    assert later == [offers[i]] + offers[i + 1..];
    assert forall x :: x in later ==> x in offers;
    CausalClocksConverge(later, w, offers[i], offers[i + 1..]);
    var h := Held(offers[i], offers[i + 1..]);
    if Largest(offers, h) {
      var j :| 0 <= j < |later| && later[j] == h;
      assert Largest(offers, offers[i + j]);
    }
    if j :| i <= j < |offers| && Largest(offers, offers[j]) {
      assert later[j - i] == offers[j];
      LargestFromLargest(offers, offers[j], h);
    }
  }

  lemma {:induction false} LargestFromLargest(all: seq<FileInfo>, w: FileInfo, h: FileInfo)
    requires Largest(all, w) && h in all && !KeyGreater(w, h)
    ensures Largest(all, h)
  {
    hide KeyGreater;
    KeyTotal(w, h);
    forall x | x in all
      ensures !KeyGreater(x, h)
    {
      if KeyGreater(h, w) {
        assert false;
      } else {
        SameKey(w, h, x);
      }
    }
  }

  // ---- Index messages ----

  /** The entries of a message stream that bear one name, in order. */
  ghost function OffersOf(files: seq<FileInfo>, n: string): seq<FileInfo> {
    if files == [] then []
    else (if files[0].name == n then [files[0]] else []) + OffersOf(files[1..], n)
  }

  lemma {:induction false} OffersOfHead(files: seq<FileInfo>, n: string)
    requires files != []
    ensures files[0].name != n ==> OffersOf(files, n) == OffersOf(files[1..], n)
    ensures files[0].name == n ==>
              OffersOf(files, n) != [] && OffersOf(files, n)[0] == files[0]
              && OffersOf(files, n)[1..] == OffersOf(files[1..], n)
  {
  }

  lemma {:induction false} ProcessIsHeld(db: Files, files: seq<FileInfo>, n: string)
    requires n in db && ValidRemoteName(n)
    ensures n in Process(db, files)
    ensures Process(db, files)[n] == Held(db[n], OffersOf(files, n))
    decreases |files|
  {
    hide Accept, ValidRemoteName;
    if files != [] {
      ProcessIsHeld(Offer(db, files[0]), files[1..], n);
      OffersOfHead(files, n);
    }
  }

  lemma {:induction false} ProcessIsHeldFromNothing(db: Files, files: seq<FileInfo>, n: string)
    requires n !in db && ValidRemoteName(n)
    ensures HeldFromNothing(OffersOf(files, n)) ==
            if n in Process(db, files) then Some(Process(db, files)[n]) else None
    decreases |files|
  {
    hide Accept, ValidRemoteName, Held;
    if files != [] {
      OffersOfHead(files, n);
      var next := Offer(db, files[0]);
      if n in next {
        ProcessIsHeld(next, files[1..], n);
      } else {
        ProcessIsHeldFromNothing(next, files[1..], n);
      }
    }
  }

  /** A device that holds a name and processes any stream of index messages which, with the stored
      entry, brings the same entries of that name, stores the winning version if there is one. */
  lemma {:induction false} IndexMessagesStoreWinner(all: seq<FileInfo>, w: FileInfo, n: string, db: Files, files: seq<FileInfo>)
    requires VersionWins(all, w) && ValidRemoteName(n) && n in db && Delivery(all, db[n], OffersOf(files, n))
    ensures n in Process(db, files) && SameVersion(Process(db, files)[n].version, w.version)
  {
    hide Accept, Held, SameVersion, Process, VersionWins, Delivery;
    ProcessIsHeld(db, files, n);
    DeliveredWinner(all, w, db[n], OffersOf(files, n));
  }

  /** With causal clocks, two devices that hold a name and process any streams of index messages
      which, with the stored entries, bring the same entries of it, store the same version. */
  lemma {:induction false} IndexMessagesConverge(all: seq<FileInfo>, n: string,
                                                 a: Files, forA: seq<FileInfo>, b: Files, forB: seq<FileInfo>)
    requires CausalClocks(all) && OneMtimePerVersion(all) && ValidRemoteName(n)
    requires n in a && Delivery(all, a[n], OffersOf(forA, n))
    requires n in b && Delivery(all, b[n], OffersOf(forB, n))
    ensures n in Process(a, forA) && n in Process(b, forB)
    ensures SameVersion(Process(a, forA)[n].version, Process(b, forB)[n].version)
    ensures Largest(all, Process(a, forA)[n])
  {
    hide Accept, Held, SameVersion, KeyGreater, ClockOk, Process;
    ProcessIsHeld(a, forA, n);
    ProcessIsHeld(b, forB, n);
    var w := LargestExists(all);
    CausalClocksConverge(all, w, a[n], OffersOf(forA, n));
  }

  // ---- Without causal clocks ----

  function Entry(version: Vector, mtime: int): FileInfo {
    FileInfo("x", File, 100, 420, mtime, 0, version, 1, [], None)
  }

  const FIRST := Entry(map[1 := 2], 1)
  const SECOND := Entry(map[1 := 1], 3)
  const THIRD := Entry(map[2 := 1], 2)

  /** A dominates B, B is newer than C, and C is newer than A: the order decides. */
  lemma {:induction false} ThreeCycle()
    ensures Beats(FIRST, SECOND) && Beats(SECOND, THIRD) && Beats(THIRD, FIRST)
    ensures OneMtimePerVersion([FIRST, SECOND, THIRD])
    ensures !OrderIndependent([FIRST, SECOND, THIRD])
  {
    hide Accept, Beats, LexGreater, Dominates;
    CycleVersions();
    BeatsMeans(FIRST, SECOND);
    BeatsMeans(SECOND, THIRD);
    BeatsMeans(THIRD, FIRST);
    var all := [FIRST, SECOND, THIRD];
    NoneBeatsAll(all);
    forall w
      ensures !VersionWins(all, w)
    {
      if VersionWins(all, w) {
        WinnerBeatsAll(all, w);
      }
    }
    OrderIndependentIff(all);
  }

  lemma {:induction false} WinnerBeatsAll(all: seq<FileInfo>, w: FileInfo)
    requires VersionWins(all, w)
    ensures BeatsAll(all, w)
  {
    hide Beats;
    SameVersionReflexive(w.version);
  }

  /** One version with two modification times around that of a concurrent version. */
  const OLDER := Entry(map[1 := 1], 1)
  const NEWER := Entry(map[1 := 1], 10)
  const BETWEEN := Entry(map[2 := 1], 5)

  /** One entry beats all others, yet the order decides: its version also has a losing entry. */
  lemma {:induction false} TwoMtimesDiverge()
    ensures BeatsAll([OLDER, NEWER, BETWEEN], NEWER) && Beats(BETWEEN, OLDER)
    ensures !OrderIndependent([OLDER, NEWER, BETWEEN])
  {
    hide Accept, Beats, LexGreater, Dominates;
    TwoVersions();
    BeatsMeans(NEWER, BETWEEN);
    BeatsMeans(BETWEEN, OLDER);
    BeatsMeans(OLDER, BETWEEN);
    BeatsMeans(BETWEEN, NEWER);
    var all := [OLDER, NEWER, BETWEEN];
    assert OLDER in all && NEWER in all && BETWEEN in all;
    assert forall x :: x in all ==> x == OLDER || x == NEWER || x == BETWEEN;
    SameVersionReflexive(OLDER.version);
    SameVersionReflexive(BETWEEN.version);
    OrderIndependentIff(all);
  }

  lemma {:induction false} TwoVersions()
    ensures !Dominates(OLDER.version, BETWEEN.version) && !Dominates(BETWEEN.version, OLDER.version)
  {
    assert Get(OLDER.version, 2) < Get(BETWEEN.version, 2) && Get(BETWEEN.version, 1) < Get(OLDER.version, 1);
  }

  lemma {:induction false} NoneBeatsAll(all: seq<FileInfo>)
    requires all == [FIRST, SECOND, THIRD]
    requires Beats(FIRST, SECOND) && Beats(SECOND, THIRD) && Beats(THIRD, FIRST)
    ensures forall w :: !BeatsAll(all, w)
  {
    hide Accept;
    ExactlyOneBeats(FIRST, SECOND);
    ExactlyOneBeats(SECOND, THIRD);
    ExactlyOneBeats(THIRD, FIRST);
    forall w
      ensures !BeatsAll(all, w)
    {
      assert FIRST in all && SECOND in all && THIRD in all;
    }
  }

  lemma {:induction false} CycleVersions()
    ensures Dominates(FIRST.version, SECOND.version) && !Dominates(SECOND.version, FIRST.version)
    ensures !Dominates(SECOND.version, THIRD.version) && !Dominates(THIRD.version, SECOND.version)
    ensures !Dominates(FIRST.version, THIRD.version) && !Dominates(THIRD.version, FIRST.version)
  {
    assert Get(SECOND.version, 1) < Get(FIRST.version, 1);
    assert Get(SECOND.version, 2) < Get(THIRD.version, 2) && Get(THIRD.version, 1) < Get(SECOND.version, 1);
    assert Get(FIRST.version, 2) < Get(THIRD.version, 2) && Get(THIRD.version, 1) < Get(FIRST.version, 1);
  }
}
