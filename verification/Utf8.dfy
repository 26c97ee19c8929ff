/** Texts measured in the bytes of their UTF-8 encoding, and cuts at byte offsets. */
module Utf8 {
  import opened FileTypes

  function Width(c: char): (w: nat)
    ensures 1 <= w <= 4 && (w == 1 <==> c < 128 as char)
  {
    if c < 128 as char then 1 else if c < 0x800 as char then 2 else if c < 0x1_0000 as char then 3 else 4
  }

  function ByteLen(s: string): nat {
    if s == "" then 0 else Width(s[0]) + ByteLen(s[1..])
  }

  predicate Ascii(s: string) {
    forall i :: 0 <= i < |s| ==> s[i] < 128 as char
  }

  /** How many characters the first `b` bytes hold, if `b` does not fall inside a character. */
  function Boundary(s: string, b: nat): (r: Option<nat>)
    ensures r.Some? ==> r.value <= |s|
    decreases |s|
  {
    if b == 0 then Some(0)
    else if s == "" || b < Width(s[0]) then None
    else
      var rest := Boundary(s[1..], b - Width(s[0]));
      if rest.Some? then Some(rest.value + 1) else None
  }

  lemma {:induction false} ByteLenConcat(a: string, b: string)
    ensures ByteLen(a + b) == ByteLen(a) + ByteLen(b)
  {
    if a == "" {
      assert a + b == b;
    } else {
      ByteLenConcat(a[1..], b);
      assert (a + b)[1..] == a[1..] + b;
    }
  }

  /** A boundary is exactly an offset that some number of characters fills. */
  lemma {:induction false} BoundaryIff(s: string, b: nat, k: nat)
    requires k <= |s|
    ensures Boundary(s, b) == Some(k) <==> ByteLen(s[..k]) == b
    decreases |s|
  {
    if k == 0 {
      assert s[..0] == "";
    } else {
      assert s[..k][1..] == s[1..][..k - 1];
      if b >= Width(s[0]) {
        BoundaryIff(s[1..], b - Width(s[0]), k - 1);
      }
    }
  }

  lemma {:induction false} AsciiLen(s: string)
    ensures |s| <= ByteLen(s)
    ensures ByteLen(s) == |s| <==> Ascii(s)
  {
    if s != "" {
      AsciiLen(s[1..]);
      assert Ascii(s) <==> Width(s[0]) == 1 && Ascii(s[1..]) by {
        assert forall i :: 0 < i < |s| ==> s[i] == s[1..][i - 1];
      }
    }
  }

  /** In ASCII text every byte offset is a boundary. */
  lemma {:induction false} AsciiBoundary(s: string, b: nat)
    requires b <= |s| && Ascii(s[..b])
    ensures Boundary(s, b) == Some(b)
  {
    AsciiLen(s[..b]);
    BoundaryIff(s, b, b);
  }

  /** Text that is ASCII up to one boundary, and between it and a later one, is so up to that one. */
  lemma {:induction false} AsciiExtends(s: string, b: nat, e: nat, k: nat)
    requires b <= |s| && Ascii(s[..b]) && Boundary(s, e) == Some(k) && b <= k && Ascii(s[b..k])
    ensures k == e && Ascii(s[..e])
  {
    assert s[..k] == s[..b] + s[b..k];
    assert forall i :: 0 <= i < k ==> s[..k][i] == if i < b then s[..b][i] else s[b..k][i - b];
    AsciiLen(s[..k]);
    BoundaryIff(s, e, k);
  }

  /** A single byte between two boundaries is an ASCII character. */
  lemma {:induction false} OneByte(s: string, b: nat, k: nat)
    requires b <= k <= |s| && Ascii(s[..b]) && ByteLen(s[..k]) == b + 1
    ensures k == b + 1 && Ascii(s[..k])
  {
    assert s[..k] == s[..b] + s[b..k];
    ByteLenConcat(s[..b], s[b..k]);
    AsciiLen(s[..b]);
    AsciiLen(s[b..k]);
    if k > b {
      assert Ascii(s[b..k]);
      assert forall i :: 0 <= i < k ==> s[..k][i] == if i < b then s[..b][i] else s[b..k][i - b];
    }
  }

  lemma {:induction false} BoundariesGrow(s: string, b: nat, e: nat)
    requires b <= e && Boundary(s, b).Some? && Boundary(s, e).Some?
    ensures Boundary(s, b).value <= Boundary(s, e).value
  {
    var j, k := Boundary(s, b).value, Boundary(s, e).value;
    BoundaryIff(s, b, j);
    BoundaryIff(s, e, k);
    if k < j {
      assert s[..j] == s[..k] + s[k..j];
      ByteLenConcat(s[..k], s[k..j]);
      AsciiLen(s[k..j]);
    }
  }
}
