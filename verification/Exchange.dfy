/** Two devices send each other their full indexes at the same time. */
module Exchange {
  import opened Versions
  import opened FileTypes
  import opened Paths
  import opened Arbitration
  import opened Scanner
  import opened Replication

  ghost predicate LiveAt(db: Files, n: string) {
    n in db && !db[n].IsDeleted()
  }

  /** The entry for `n` once the peer's whole database has been processed. */
  ghost function After(db: Files, peer: Files, n: string): Option<FileInfo> {
    if n in peer && ValidRemoteName(n) then
      if n in db then Some(Accept(db[n], peer[n]))
      else if peer[n].IsDeleted() then None
      else Some(peer[n])
    else if n in db then Some(db[n])
    else None
  }

  ghost predicate HoldsAt(db: Files, n: string, e: Option<FileInfo>) {
    if e.None? then n !in db else n in db && db[n] == e.value
  }

  lemma {:induction false} ProcessAt(db: Files, files: seq<FileInfo>, i: nat)
    requires i < |files|
    requires forall a, b :: 0 <= a < b < |files| ==> files[a].name != files[b].name
    ensures var n := files[i].name;
            && (n in Process(db, files) <==> n in Offer(db, files[i]))
            && (n in Offer(db, files[i]) ==> Process(db, files)[n] == Offer(db, files[i])[n])
    decreases i
  {
    hide Offer;
    var n := files[i].name;
    if i == 0 {
      forall f | f in files[1..]
        ensures f.name != n
      {
        var b :| 0 <= b < |files[1..]| && files[1..][b] == f;
        assert f == files[b + 1];
      }
      UnmentionedUnchanged(Offer(db, files[0]), files[1..], n);
    } else {
      OfferElsewhere(db, files[0], n);
      ProcessAt(Offer(db, files[0]), files[1..], i - 1);
      OfferLocal(db, Offer(db, files[0]), files[i]);
    }
  }

  /** An offer depends on the database only at its own name. */
  lemma {:induction false} OfferLocal(a: Files, b: Files, remote: FileInfo)
    requires remote.name in a <==> remote.name in b
    requires remote.name in a ==> a[remote.name] == b[remote.name]
    ensures var n := remote.name;
            && (n in Offer(a, remote) <==> n in Offer(b, remote))
            && (n in Offer(a, remote) ==> Offer(a, remote)[n] == Offer(b, remote)[n])
  {
  }

  lemma {:induction false} ProcessIsAfter(db: Files, peer: Files, index: seq<FileInfo>, n: string)
    requires Keyed(db) && Keyed(peer) && Lists(index, peer)
    ensures HoldsAt(Process(db, index), n, After(db, peer, n))
  {
    hide Accept, Process;
    if n in peer {
      var i :| 0 <= i < |index| && index[i] == peer[n];
      ProcessAt(db, index, i);
    } else {
      UnmentionedUnchanged(db, index, n);
    }
  }

  lemma {:induction false} NeededNone(db: Files, files: seq<FileInfo>)
    requires forall i :: 0 <= i < |files| ==> !Wanted(Process(db, files[..i]), files[i])
    ensures Needed(db, files) == []
    decreases |files|
  {
    hide Wanted, Offer;
    if files != [] {
      assert files[..0] == [];
      assert !Wanted(Process(db, files[..0]), files[0]);
      forall i | 0 <= i < |files[1..]|
        ensures !Wanted(Process(Offer(db, files[0]), files[1..][..i]), files[1..][i])
      {
        assert files[..i + 1][1..] == files[1..][..i];
        assert !Wanted(Process(db, files[..i + 1]), files[i + 1]);
      }
      NeededNone(Offer(db, files[0]), files[1..]);
    }
  }

  /** Whether an entry is wanted depends on the database only at its own name. */
  lemma {:induction false} WantedLocal(a: Files, b: Files, remote: FileInfo)
    requires remote.name in a <==> remote.name in b
    requires remote.name in a ==> a[remote.name] == b[remote.name]
    ensures Wanted(a, remote) <==> Wanted(b, remote)
  {
  }

  lemma {:induction false} WantedInTurn(db: Files, files: seq<FileInfo>, i: nat)
    requires i < |files|
    requires forall a, b :: 0 <= a < b < |files| ==> files[a].name != files[b].name
    ensures Wanted(Process(db, files[..i]), files[i]) <==> Wanted(db, files[i])
  {
    hide Wanted, Process;
    forall f | f in files[..i]
      ensures f.name != files[i].name
    {
      var a :| 0 <= a < i && files[a] == f;
    }
    UnmentionedUnchanged(db, files[..i], files[i].name);
    WantedLocal(Process(db, files[..i]), db, files[i]);
  }

  lemma {:induction false} NeededSome(db: Files, files: seq<FileInfo>, i: nat)
    requires i < |files| && Wanted(Process(db, files[..i]), files[i])
    ensures Needed(db, files) != []
    decreases i
  {
    hide Wanted, Offer;
    if i == 0 {
      assert files[..0] == [];
    } else {
      assert files[..i][1..] == files[1..][..i - 1];
      NeededSome(Offer(db, files[0]), files[1..], i - 1);
    }
  }

  /** An index asks for downloads exactly when one of its entries is wanted. */
  lemma {:induction false} NeededIffWanted(db: Files, peer: Files, index: seq<FileInfo>)
    requires Keyed(peer) && Lists(index, peer)
    ensures Needed(db, index) == [] <==> forall n :: n in peer ==> !Wanted(db, peer[n])
  {
    hide Wanted, Needed, Process;
    if forall n :: n in peer ==> !Wanted(db, peer[n]) {
      forall i | 0 <= i < |index|
        ensures !Wanted(Process(db, index[..i]), index[i])
      {
        WantedInTurn(db, index, i);
        assert index[i] in index;
      }
      NeededNone(db, index);
    } else {
      var n :| n in peer && Wanted(db, peer[n]);
      var i :| 0 <= i < |index| && index[i] == peer[n];
      WantedInTurn(db, index, i);
      NeededSome(db, index, i);
    }
  }

  // ---- One exchange ----

  /** If both devices hold the name at the same version, size, time and deletion are the same. */
  ghost predicate OneMetaPerVersion(a: Files, b: Files, n: string) {
    n in a && n in b && SameVersion(a[n].version, b[n].version) ==>
      SameMeta(a[n], b[n]) && a[n].IsDeleted() == b[n].IsDeleted()
  }

  /** The two databases after each device has processed the other's full index. */
  ghost predicate Exchanged(a: Files, b: Files, a': Files, b': Files) {
    exists ia, ib :: Lists(ia, a) && Lists(ib, b) && a' == Process(a, ib) && b' == Process(b, ia)
  }

  ghost predicate Agree(a: Files, b: Files, n: string) {
    && (LiveAt(a, n) <==> LiveAt(b, n))
    && (n in a && n in b ==> SameVersion(a[n].version, b[n].version) && SameMeta(a[n], b[n]))
  }

  lemma {:induction false} ExchangedAt(a: Files, b: Files, a': Files, b': Files, n: string)
    requires Keyed(a) && Keyed(b) && Exchanged(a, b, a', b')
    ensures HoldsAt(a', n, After(a, b, n)) && HoldsAt(b', n, After(b, a, n))
  {
    hide Lists, Process, After, HoldsAt;
    var ia, ib :| Lists(ia, a) && Lists(ib, b) && a' == Process(a, ib) && b' == Process(b, ia);
    ProcessIsAfter(a, b, ib, n);
    ProcessIsAfter(b, a, ia, n);
  }

  lemma {:induction false} AfterAgrees(a: Files, b: Files, n: string)
    requires ValidRemoteName(n) && n in a && n in b
    requires OneMetaPerVersion(a, b, n)
    ensures var x, y := Accept(a[n], b[n]), Accept(b[n], a[n]);
            SameVersion(x.version, y.version) && SameMeta(x, y) && x.IsDeleted() == y.IsDeleted()
  {
    hide Accept;
    if SameVersion(a[n].version, b[n].version) {
      SameVersionKeeps(a[n], b[n]);
      SameVersionKeeps(b[n], a[n]);
    } else {
      ExactlyOneBeats(a[n], b[n]);
      ExactlyOneBeats(b[n], a[n]);
    }
  }

  /** After one simultaneous exchange the devices agree on whether a name is live, on its version
      and on its metadata, exactly when equal versions of it meant equal metadata before; names
      a peer may not send stay as they were. */
  lemma {:induction false} ExchangeConvergesIff(a: Files, b: Files, a': Files, b': Files, n: string)
    requires Keyed(a) && Keyed(b) && Exchanged(a, b, a', b')
    ensures ValidRemoteName(n) ==> (Agree(a', b', n) <==> OneMetaPerVersion(a, b, n))
    ensures !ValidRemoteName(n) ==> (n in a' <==> n in a) && (n in a ==> a'[n] == a[n])
    ensures !ValidRemoteName(n) ==> (n in b' <==> n in b) && (n in b ==> b'[n] == b[n])
  {
    hide Accept, Exchanged;
    ExchangedAt(a, b, a', b', n);
    if ValidRemoteName(n) && n in a && n in b {
      if OneMetaPerVersion(a, b, n) {
        AfterAgrees(a, b, n);
      } else {
        SameVersionKeeps(a[n], b[n]);
        SameVersionKeeps(b[n], a[n]);
      }
    }
  }

  // ---- The next exchange ----

  /** Equal versions but different size or mtime: each device keeps its own entry. */
  ghost predicate Clash(a: Files, b: Files, n: string) {
    && ValidRemoteName(n) && n in a && n in b
    && SameVersion(a[n].version, b[n].version) && !SameMeta(a[n], b[n])
    && (!a[n].IsDeleted() || !b[n].IsDeleted())
  }

  lemma {:induction false} WantedAgain(a: Files, b: Files, a': Files, b': Files, n: string)
    requires Keyed(a) && Keyed(b) && Exchanged(a, b, a', b')
    requires n in a' && Wanted(b', a'[n]) && a'[n].name == n
    ensures Clash(a, b, n)
  {
    hide Exchanged, RemoteWins;
    ExchangedAt(a, b, a', b', n);
    if n in a && n in b {
      if SameVersion(a[n].version, b[n].version) {
        SameVersionKeeps(a[n], b[n]);
        SameVersionKeeps(b[n], a[n]);
      } else {
        ExactlyOneBeats(a[n], b[n]);
        ExactlyOneBeats(b[n], a[n]);
        assert a'[n] == b'[n];
        NotWantedTwice(b', a'[n]);
      }
    } else {
      NotWantedTwice(b', a'[n]);
    }
  }

  lemma {:induction false} NotWantedTwice(db: Files, f: FileInfo)
    requires f.name in db && db[f.name] == f
    ensures !Wanted(db, f)
  {
  }

  lemma {:induction false} ClashRemains(a: Files, b: Files, a': Files, b': Files, n: string)
    requires Keyed(a) && Keyed(b) && Exchanged(a, b, a', b') && Clash(a, b, n)
    ensures n in a' && n in b' && a'[n] == a[n] && b'[n] == b[n]
    ensures Wanted(b', a'[n]) || Wanted(a', b'[n])
  {
    hide Exchanged, RemoteWins, Accept;
    ExchangedAt(a, b, a', b', n);
    SameVersionKeeps(a[n], b[n]);
    SameVersionKeeps(b[n], a[n]);
  }

  lemma {:induction false} KeyedAfter(db: Files, files: seq<FileInfo>)
    requires Keyed(db)
    ensures Keyed(Process(db, files))
    decreases |files|
  {
    hide Accept;
    if files != [] {
      assert Keyed(Offer(db, files[0])) by {
        if files[0].name in db {
          AcceptName(db[files[0].name], files[0]);
        }
      }
      KeyedAfter(Offer(db, files[0]), files[1..]);
    }
  }

  lemma {:induction false} AcceptName(local: FileInfo, remote: FileInfo)
    requires local.name == remote.name
    ensures Accept(local, remote).name == local.name
  {
  }

  lemma {:induction false} KeyedExchanged(a: Files, b: Files, a': Files, b': Files)
    requires Keyed(a) && Keyed(b) && Exchanged(a, b, a', b')
    ensures Keyed(a') && Keyed(b')
  {
    hide Process, Lists;
    var ia, ib :| Lists(ia, a) && Lists(ib, b) && a' == Process(a, ib) && b' == Process(b, ia);
    KeyedAfter(a, ib);
    KeyedAfter(b, ia);
  }

  /** A second exchange asks for nothing exactly when no name had equal versions with
      different size or modification time. */
  lemma {:induction false} SecondExchangeQuietIff(a: Files, b: Files, a': Files, b': Files,
                                                  ia: seq<FileInfo>, ib: seq<FileInfo>)
    requires Keyed(a) && Keyed(b) && Exchanged(a, b, a', b')
    requires Lists(ia, a') && Lists(ib, b')
    ensures Needed(b', ia) == [] && Needed(a', ib) == [] <==> forall n :: !Clash(a, b, n)
  {
    hide Wanted, Needed, Exchanged, Clash, Lists;
    KeyedExchanged(a, b, a', b');
    NeededIffWanted(b', a', ia);
    NeededIffWanted(a', b', ib);
    if forall n :: !Clash(a, b, n) {
      forall n
        ensures n in a' ==> !Wanted(b', a'[n])
        ensures n in b' ==> !Wanted(a', b'[n])
      {
        if n in a' && Wanted(b', a'[n]) { WantedAgain(a, b, a', b', n); }
        if n in b' && Wanted(a', b'[n]) {
          ExchangedSwap(a, b, a', b');
          WantedAgain(b, a, b', a', n);
          ClashSwap(a, b, n);
        }
      }
    } else {
      var n :| Clash(a, b, n);
      ClashRemains(a, b, a', b', n);
    }
  }

  lemma {:induction false} ExchangedSwap(a: Files, b: Files, a': Files, b': Files)
    requires Exchanged(a, b, a', b')
    ensures Exchanged(b, a, b', a')
  {
  }

  lemma {:induction false} ClashSwap(a: Files, b: Files, n: string)
    requires Clash(b, a, n)
    ensures Clash(a, b, n)
  {
  }

  /** A second exchange changes nothing, even where metadata clashed. */
  lemma {:induction false} SecondExchangeChangesNothing(a: Files, b: Files, a': Files, b': Files,
                                                        a'': Files, b'': Files)
    requires Keyed(a) && Keyed(b) && Exchanged(a, b, a', b') && Exchanged(a', b', a'', b'')
    ensures a'' == a' && b'' == b'
  {
    hide Exchanged, Accept;
    KeyedExchanged(a, b, a', b');
    forall n
      ensures HoldsAt(a'', n, After(a', b', n)) && HoldsAt(b'', n, After(b', a', n))
      ensures After(a', b', n) == (if n in a' then Some(a'[n]) else None)
      ensures After(b', a', n) == (if n in b' then Some(b'[n]) else None)
    {
      ExchangedAt(a', b', a'', b'', n);
      Settled(a, b, a', b', n);
    }
  }

  lemma {:induction false} Settled(a: Files, b: Files, a': Files, b': Files, n: string)
    requires Keyed(a) && Keyed(b) && Exchanged(a, b, a', b')
    ensures After(a', b', n) == (if n in a' then Some(a'[n]) else None)
    ensures After(b', a', n) == (if n in b' then Some(b'[n]) else None)
  {
    hide Exchanged, Accept;
    ExchangedAt(a, b, a', b', n);
    if n in a && n in b && ValidRemoteName(n) {
      if SameVersion(a[n].version, b[n].version) {
        SameVersionKeeps(a[n], b[n]);
        SameVersionKeeps(b[n], a[n]);
      } else {
        ExactlyOneBeats(a[n], b[n]);
        ExactlyOneBeats(b[n], a[n]);
        SameVersionKeeps(a'[n], b'[n]);
      }
    } else if n in a' && n in b' && ValidRemoteName(n) {
      SameVersionKeeps(a'[n], b'[n]);
      SameVersionKeeps(b'[n], a'[n]);
    }
  }

  // ---- Any number of exchanges ----

  ghost predicate ExchangedTimes(a: Files, b: Files, k: nat, a': Files, b': Files)
    decreases k
  {
    if k == 0 then a' == a && b' == b
    else exists c, d :: Exchanged(a, b, c, d) && ExchangedTimes(c, d, k - 1, a', b')
  }

  lemma {:induction false} SettledForGood(a: Files, b: Files, c: Files, d: Files, k: nat, a': Files, b': Files)
    requires Keyed(a) && Keyed(b) && Exchanged(a, b, c, d) && ExchangedTimes(c, d, k, a', b')
    ensures a' == c && b' == d
    decreases k
  {
    hide Exchanged, Keyed;
    if k > 0 {
      var e, f :| Exchanged(c, d, e, f) && ExchangedTimes(e, f, k - 1, a', b');
      SecondExchangeChangesNothing(a, b, c, d, e, f);
      SettledForGood(a, b, c, d, k - 1, a', b');
    }
  }

  /** However often two devices exchange their indexes, they agree on a valid name exactly when
      equal versions of it meant equal metadata at the start. */
  lemma {:induction false} ExchangesConvergeIff(a: Files, b: Files, k: nat, a': Files, b': Files, n: string)
    requires Keyed(a) && Keyed(b) && k > 0 && ExchangedTimes(a, b, k, a', b') && ValidRemoteName(n)
    ensures Agree(a', b', n) <==> OneMetaPerVersion(a, b, n)
  {
    hide Exchanged, Keyed, ValidRemoteName, Agree, OneMetaPerVersion;
    var c, d :| Exchanged(a, b, c, d) && ExchangedTimes(c, d, k - 1, a', b');
    SettledForGood(a, b, c, d, k - 1, a', b');
    ExchangeConvergesIff(a, b, c, d, n);
  }

  /** Two devices that each scan a new file of the same name, but of different size or time, give
      both the same first version, and no number of index exchanges makes them agree on it. */
  lemma {:induction false} NewFilesStayApart(f: FileInfo, g: FileInfo, i: nat, j: nat, c: nat, d: nat,
                                             k: nat, a': Files, b': Files)
    requires f.name == g.name && ValidRemoteName(f.name) && !SameMeta(f, g) && k > 0
    requires ExchangedTimes(map[f.name := NewEntry(map[], f, i, c)], map[g.name := NewEntry(map[], g, j, d)], k, a', b')
    ensures !Agree(a', b', f.name)
  {
    hide ValidRemoteName, ExchangedTimes, Agree;
    var a, b := map[f.name := NewEntry(map[], f, i, c)], map[g.name := NewEntry(map[], g, j, d)];
    ExchangesConvergeIff(a, b, k, a', b', f.name);
  }
}
