/** Device IDs: 32 bytes, printed as eight dash-separated groups with check characters. */
module DeviceIds {
  import opened FileTypes
  import opened Utf8
  import opened Bits
  import opened Base32
  import opened Luhn

  const ID_BYTES := 32

  // ---- Check characters for the whole ID ----

  ghost function WithChecks(d: string): string
    requires |d| == 52
  {
    (d[..13] + [CheckChar(d[..13])]) + (d[13..26] + [CheckChar(d[13..26])])
    + (d[26..39] + [CheckChar(d[26..39])]) + (d[39..] + [CheckChar(d[39..])])
  }

  /** Inserts the check characters from the back, so that earlier offsets stay right. */
  method Luhnify(s: string) returns (r: string)
    requires |s| == 52
    ensures r == WithChecks(s)
  {
    hide CheckChar, WithChecks;
    r := s;
    var i := 4;
    while i > 0
      invariant 0 <= i <= 4
      invariant r == s[..13 * i] + ChecksFrom(s, i)
    {
      i := i - 1;
      var start := i * 13;
      var end := start + 13;
      assert r[start..end] == s[start..end];
      var check := Luhn32Char(r[start..end]);
      InsertCheck(s, start, check, ChecksFrom(s, i + 1));
      r := r[..end] + [check] + r[end..];
    }
    ChecksFromStart(s);
    assert s[..0] + ChecksFrom(s, 0) == ChecksFrom(s, 0);
  }

  lemma {:induction false} InsertCheck(s: string, start: nat, check: char, rest: string)
    requires start + 13 <= |s|
    ensures var r, end := s[..start + 13] + rest, start + 13;
            r[..end] + [check] + r[end..] == s[..start] + (s[start..end] + [check] + rest)
  {
  }

  /** The groups from `i` on, each with its check character. */
  ghost function ChecksFrom(s: string, i: nat): (r: string)
    requires |s| == 52 && i <= 4
    ensures |r| == 14 * (4 - i)
    decreases 4 - i
  {
    if i == 4 then ""
    else s[13 * i..13 * i + 13] + [CheckChar(s[13 * i..13 * i + 13])] + ChecksFrom(s, i + 1)
  }

  lemma {:induction false} ChecksFromStart(s: string)
    requires |s| == 52
    ensures ChecksFrom(s, 0) == WithChecks(s)
  {
    hide CheckChar;
    var a, b, c, d := s[..13] + [CheckChar(s[..13])], s[13..26] + [CheckChar(s[13..26])],
                      s[26..39] + [CheckChar(s[26..39])], s[39..] + [CheckChar(s[39..])];
    assert s[39..52] == s[39..];
    assert ChecksFrom(s, 4) == "";
    assert ChecksFrom(s, 3) == d;
    assert ChecksFrom(s, 2) == c + d;
    assert ChecksFrom(s, 1) == b + (c + d);
    assert s[0..13] == s[..13];
    assert ChecksFrom(s, 0) == a + (b + (c + d));
    assert a + (b + (c + d)) == a + b + c + d;
  }

  ghost predicate Verified(s: string) {
    |s| == 56 && forall i :: 0 <= i < 4 ==> GroupValid(s[14 * i..14 * i + 14])
  }

  /** The byte offsets at which the groups of data characters begin and end are boundaries. */
  predicate Cuts(s: string) {
    forall i | 0 <= i < 4 :: Boundary(s, 14 * i).Some? && Boundary(s, 14 * i + 13).Some?
  }

  /** The data characters of group `i`. */
  function Group(s: string, i: nat): string
    requires i < 4 && Cuts(s)
  {
    BoundariesGrow(s, 14 * i, 14 * i + 13);
    s[Boundary(s, 14 * i).value..Boundary(s, 14 * i + 13).value]
  }

  lemma {:induction false} AsciiGroups(s: string)
    requires |s| == 56 && Ascii(s)
    ensures Cuts(s) && forall i :: 0 <= i < 4 ==> Group(s, i) == s[14 * i..14 * i + 13]
  {
    forall b | 0 <= b <= 56
      ensures Boundary(s, b) == Some(b)
    {
      AsciiBoundary(s, b);
    }
  }

  /** Offsets are in bytes, but the check character is looked up by its number in characters. */
  method VerifyLuhn32Checksum(s: string) returns (ok: bool)
    requires ByteLen(s) == 56 ==> Cuts(s)
    ensures Ascii(s) ==> ok == Verified(s)
  {
    hide CheckChar, Cuts, Group;
    AsciiLen(s);
    if ByteLen(s) != 56 {
      return false;
    }
    if Ascii(s) {
      AsciiGroups(s);
    }
    for i := 0 to 4
      invariant Ascii(s) ==> forall k :: 0 <= k < i ==> GroupValid(s[14 * k..14 * k + 14])
    {
      var group := Group(s, i);
      var end := 14 * i + 13;
      if end >= |s| {
        return false;
      }
      var expected := Luhn32Char(group);
      assert Ascii(s) ==> s[14 * i..14 * i + 14][..13] == group;
      if s[end] != expected {
        assert Ascii(s) ==> !GroupValid(s[14 * i..14 * i + 14]);
        return false;
      }
    }
    return true;
  }

  /** The data characters of a 56-character ID. */
  function DataOf(s: string): (d: string)
    requires |s| == 56
    ensures |d| == 52
  {
    s[..13] + s[14..27] + s[28..41] + s[42..55]
  }

  lemma {:induction false} DataGroups(s: string)
    requires |s| == 56
    ensures DataOf(s)[..13] == s[..13] && DataOf(s)[13..26] == s[14..27]
    ensures DataOf(s)[26..39] == s[28..41] && DataOf(s)[39..] == s[42..55]
  {
  }

  lemma {:induction false} CheckedGroups(d: string)
    requires |d| == 52
    ensures var s := WithChecks(d);
            && |s| == 56
            && s[..14] == d[..13] + [CheckChar(d[..13])] && s[14..28] == d[13..26] + [CheckChar(d[13..26])]
            && s[28..42] == d[26..39] + [CheckChar(d[26..39])] && s[42..] == d[39..] + [CheckChar(d[39..])]
  {
  }

  /** Adding check characters and dropping them again changes nothing, and they verify. */
  lemma {:induction false} ChecksVerify(d: string)
    requires |d| == 52
    ensures Verified(WithChecks(d)) && DataOf(WithChecks(d)) == d
  {
    hide CheckChar, WithChecks;
    CheckedGroups(d);
    var s := WithChecks(d);
    assert s[0..14] == s[..14] && s[42..56] == s[42..];
    assert s[..14][..13] == d[..13] && s[14..28][..13] == d[13..26];
    assert s[28..42][..13] == d[26..39] && s[42..][..13] == d[39..];
    assert s[..13] == s[..14][..13] && s[14..27] == s[14..28][..13];
    assert s[28..41] == s[28..42][..13] && s[42..55] == s[42..][..13];
    assert d == d[..13] + d[13..26] + d[26..39] + d[39..];
  }

  /** A verified ID is its data with the check characters those data determine. */
  lemma {:induction false} VerifiedMeans(s: string)
    requires Verified(s)
    ensures WithChecks(DataOf(s)) == s
  {
    hide CheckChar;
    DataGroups(s);
    var d := DataOf(s);
    assert GroupValid(s[14 * 0..14 * 0 + 14]) && GroupValid(s[14 * 1..14 * 1 + 14]);
    assert GroupValid(s[14 * 2..14 * 2 + 14]) && GroupValid(s[14 * 3..14 * 3 + 14]);
    var g0, g1, g2, g3 := s[0..14], s[14..28], s[28..42], s[42..56];
    assert g0 == g0[..13] + [g0[13]] && g1 == g1[..13] + [g1[13]];
    assert g2 == g2[..13] + [g2[13]] && g3 == g3[..13] + [g3[13]];
    assert g0[..13] == d[..13] && g1[..13] == d[13..26] && g2[..13] == d[26..39] && g3[..13] == d[39..];
    assert s == g0 + g1 + g2 + g3;
  }

  // ---- Printing ----

  function Dashed(s: string): string {
    if |s| <= 7 then s else s[..7] + "-" + Dashed(s[7..])
  }

  predicate Alphanumeric(c: char) {
    'a' <= c <= 'z' || 'A' <= c <= 'Z' || '0' <= c <= '9'
  }

  function Cleaned(s: string): string {
    if s == "" then "" else (if Alphanumeric(s[0]) then [s[0]] else "") + Cleaned(s[1..])
  }

  lemma {:induction false} CleanedAppend(a: string, b: string)
    ensures Cleaned(a + b) == Cleaned(a) + Cleaned(b)
  {
    if a == "" {
      assert a + b == b;
    } else {
      hide Alphanumeric;
      CleanedAppend(a[1..], b);
      assert (a + b)[1..] == a[1..] + b && (a + b)[0] == a[0];
      var head := if Alphanumeric(a[0]) then [a[0]] else "";
      assert (head + Cleaned(a[1..])) + Cleaned(b) == head + (Cleaned(a[1..]) + Cleaned(b));
    }
  }

  lemma {:induction false} CleanedSame(s: string)
    requires forall i :: 0 <= i < |s| ==> Alphanumeric(s[i])
    ensures Cleaned(s) == s
  {
    if s != "" {
      CleanedSame(s[1..]);
    }
  }

  lemma {:induction false} CleanedDashed(s: string)
    requires forall i :: 0 <= i < |s| ==> Alphanumeric(s[i])
    ensures Cleaned(Dashed(s)) == s
  {
    if |s| <= 7 {
      CleanedSame(s);
    } else {
      CleanedDashed(s[7..]);
      CleanedSame(s[..7]);
      CleanedAppend(s[..7] + "-", Dashed(s[7..]));
      CleanedAppend(s[..7], "-");
      assert Cleaned("-") == "";
    }
  }

  /** `text` is the printed form of `id`. */
  ghost predicate Prints(text: string, id: seq<Byte>) {
    exists b32 :: |b32| == 52 && EncodesText(b32, id) && text == Dashed(WithChecks(b32))
  }

  method Display(id: seq<Byte>) returns (text: string)
    requires |id| == ID_BYTES
    ensures Prints(text, id)
  {
    hide WithChecks, EncodesText;
    var base32 := ToBase32(id);
    TextLength(base32, id);
    var withLuhn := Luhnify(base32);
    text := Dashed(withLuhn);
    assert EncodesText(base32, id) && text == Dashed(WithChecks(base32));
  }

  lemma {:induction false} TextLength(s: string, id: seq<Byte>)
    requires EncodesText(s, id) && |id| == ID_BYTES
    ensures |s| == 52
  {
  }

  lemma {:induction false} SymbolAlphanumeric(c: Code)
    ensures Alphanumeric(Symbol(c))
  {
  }

  lemma {:induction false} PrintedAlphanumeric(b32: string, id: seq<Byte>)
    requires |b32| == 52 && EncodesText(b32, id)
    ensures forall i :: 0 <= i < |WithChecks(b32)| ==> Alphanumeric(WithChecks(b32)[i])
  {
    hide Sum, CheckCode, Symbol, Encodes, CodeOf, Alphanumeric;
    forall i | 0 <= i < 52
      ensures Alphanumeric(b32[i])
    {
      SymbolAlphanumeric(Codes(b32)[i]);
    }
    CheckAlphanumeric(b32[..13]);
    CheckAlphanumeric(b32[13..26]);
    CheckAlphanumeric(b32[26..39]);
    CheckAlphanumeric(b32[39..]);
  }

  lemma {:induction false} CheckAlphanumeric(s: string)
    ensures Alphanumeric(CheckChar(s))
  {
  }

  lemma {:induction false} PrintedCleaned(text: string, id: seq<Byte>) returns (b32: string)
    requires Prints(text, id)
    ensures |b32| == 52 && EncodesText(b32, id) && Cleaned(text) == WithChecks(b32)
  {
    hide WithChecks, EncodesText;
    b32 :| |b32| == 52 && EncodesText(b32, id) && text == Dashed(WithChecks(b32));
    PrintedAlphanumeric(b32, id);
    CleanedDashed(WithChecks(b32));
  }

  // ---- Parsing ----

  function HexValue(c: char): Option<int> {
    if '0' <= c <= '9' then Some((c - '0') as int)
    else if 'a' <= c <= 'f' then Some(10 + (c - 'a') as int)
    else if 'A' <= c <= 'F' then Some(10 + (c - 'A') as int)
    else None
  }

  /** Exactly the hexadecimal digits have a value, in either case. */
  lemma {:induction false} HexValueIff(c: char, d: int)
    ensures HexValue(c) == Some(d) <==> 0 <= d < 16 && (c == "0123456789abcdef"[d] || c == "0123456789ABCDEF"[d])
  {
  }

  ghost predicate IsHex(s: string) {
    |s| % 2 == 0 && forall i :: 0 <= i < |s| ==> HexValue(s[i]).Some?
  }

  ghost predicate HexDecodes(bytes: seq<Byte>, s: string) {
    IsHex(s) && |s| == 2 * |bytes|
    && forall i :: 0 <= i < |bytes| ==> bytes[i] == 16 * HexValue(s[2 * i]).value + HexValue(s[2 * i + 1]).value
  }

  method DecodeHex(s: string) returns (r: Result<seq<Byte>>)
    requires |s| % 2 == 0
    ensures r.Ok? <==> IsHex(s)
    ensures r.Ok? ==> HexDecodes(r.value, s)
  {
    hide HexValue;
    var bytes: seq<Byte> := [];
    for i := 0 to |s| / 2
      invariant |bytes| == i
      invariant forall k :: 0 <= k < 2 * i ==> HexValue(s[k]).Some?
      invariant forall k :: 0 <= k < i ==> bytes[k] == 16 * HexValue(s[2 * k]).value + HexValue(s[2 * k + 1]).value
    {
      var hi, lo := HexValue(s[2 * i]), HexValue(s[2 * i + 1]);
      if hi.None? || lo.None? {
        return Err("Invalid hex encoding");
      }
      HexBound(s[2 * i]);
      HexBound(s[2 * i + 1]);
      bytes := bytes + [16 * hi.value + lo.value];
    }
    return Ok(bytes);
  }

  lemma {:induction false} HexBound(c: char)
    ensures HexValue(c).Some? ==> 0 <= HexValue(c).value < 16
  {
  }

  /** What parsing yields once only letters and digits are left, all of them ASCII. */
  ghost predicate ParsesCleaned(c: string, r: Result<seq<Byte>>) {
    if |c| == 64 then
      if IsHex(c) then r.Ok? && HexDecodes(r.value, c) else r.Err?
    else if |c| == 56 then
      if Verified(c) && InAlphabet(DataOf(c)) then r.Ok? && Decodes(r.value, Codes(DataOf(c))) else r.Err?
    else r.Err?
  }

  /** What parsing an ASCII text yields. */
  ghost predicate Parses(s: string, r: Result<seq<Byte>>) {
    ParsesCleaned(Cleaned(s), r)
  }

  /** The letters and digits of a text, as Unicode has them. */
  function Filtered(s: string, alphanumeric: char -> bool): string {
    if s == "" then "" else (if alphanumeric(s[0]) then [s[0]] else "") + Filtered(s[1..], alphanumeric)
  }

  ghost predicate ExtendsAscii(alphanumeric: char -> bool) {
    forall c :: c < 128 as char ==> alphanumeric(c) == Alphanumeric(c)
  }

  lemma {:induction false} FilteredAscii(s: string, alphanumeric: char -> bool)
    requires ExtendsAscii(alphanumeric) && Ascii(s)
    ensures Filtered(s, alphanumeric) == Cleaned(s) && Ascii(Cleaned(s))
  {
    if s != "" {
      assert Ascii(s[1..]) by { assert forall i :: 0 < i < |s| ==> s[1..][i - 1] == s[i]; }
      FilteredAscii(s[1..], alphanumeric);
    }
  }

  function AllGroups(s: string): string
    requires Cuts(s)
  {
    Group(s, 0) + Group(s, 1) + Group(s, 2) + Group(s, 3)
  }

  lemma {:induction false} AsciiData(c: string)
    requires |c| == 56 && Ascii(c)
    ensures Cuts(c) && AllGroups(c) == DataOf(c)
  {
    hide Cuts, Group;
    AsciiGroups(c);
    assert c[14 * 0..14 * 0 + 13] == c[..13] && c[14 * 1..14 * 1 + 13] == c[14..27];
    assert c[14 * 2..14 * 2 + 13] == c[28..41] && c[14 * 3..14 * 3 + 13] == c[42..55];
  }

  /** If a text is ASCII up to group `i`, and the group is, then so is everything up to the next. */
  lemma {:induction false} AsciiPastGroup(c: string, i: nat)
    requires i < 4 && ByteLen(c) == 56 && Cuts(c) && 14 * i <= |c| && Ascii(c[..14 * i]) && Ascii(Group(c, i))
    ensures 14 * i + 14 <= |c| && Ascii(c[..14 * i + 14])
  {
    var start, end := 14 * i, 14 * i + 13;
    AsciiBoundary(c, start);
    var k := Boundary(c, end).value;
    BoundariesGrow(c, start, end);
    AsciiExtends(c, start, end, k);
    if i < 3 {
      assert Boundary(c, 14 * (i + 1)).Some?;
      var m := Boundary(c, end + 1).value;
      BoundariesGrow(c, end, end + 1);
      AsciiBoundary(c, end);
      BoundaryIff(c, end + 1, m);
      OneByte(c, end, m);
    } else {
      assert c[..|c|] == c;
      OneByte(c, end, |c|);
    }
  }

  /** The check characters are single bytes, so a character of several bytes is in the data. */
  lemma {:induction false} WideInData(c: string)
    requires ByteLen(c) == 56 && Cuts(c) && InAlphabet(AllGroups(c))
    ensures Ascii(c) && |c| == 56
  {
    hide Cuts, Group;
    AlphabetAscii(AllGroups(c));
    assert Ascii(c[..14 * 0]);
    AsciiParts(Group(c, 0), Group(c, 1), Group(c, 2), Group(c, 3));
    AsciiPastGroup(c, 0);
    AsciiPastGroup(c, 1);
    AsciiPastGroup(c, 2);
    AsciiPastGroup(c, 3);
    AsciiLen(c);
    assert c[..56] == c;
  }

  lemma {:induction false} AlphabetAscii(s: string)
    requires InAlphabet(s)
    ensures Ascii(s)
  {
    forall i | 0 <= i < |s|
      ensures s[i] < 128 as char
    {
      assert CodeOf(s[i]).Some?;
    }
  }

  lemma {:induction false} AsciiParts(a: string, b: string, c: string, d: string)
    requires Ascii(a + b + c + d)
    ensures Ascii(a) && Ascii(b) && Ascii(c) && Ascii(d)
  {
    var s := a + b + c + d;
    assert s[..|a|] == a && s[|a|..|a| + |b|] == b && s[|a| + |b|..|a| + |b| + |c|] == c && s[|a| + |b| + |c|..] == d;
  }

  lemma {:induction false} FilteredSame(s: string, alphanumeric: char -> bool)
    requires forall i :: 0 <= i < |s| ==> alphanumeric(s[i])
    ensures Filtered(s, alphanumeric) == s
  {
    if s != "" {
      FilteredSame(s[1..], alphanumeric);
    }
  }

  /** Twelve ASCII letters, one letter of two bytes and forty-two more: the first group of thirteen
      bytes ends inside the wide letter. */
  lemma {:induction false} CutInsideLetter(head: string, wide: char, tail: string, alphanumeric: char -> bool)
    requires |head| == 12 && |tail| == 42 && Ascii(head) && Ascii(tail) && Width(wide) == 2
    requires var s := head + [wide] + tail; forall i :: 0 <= i < |s| ==> alphanumeric(s[i])
    ensures var c := Filtered(head + [wide] + tail, alphanumeric); ByteLen(c) == 56 && !Cuts(c)
  {
    var c, upTo := head + [wide] + tail, head + [wide];
    FilteredSame(c, alphanumeric);
    ByteLenConcat(upTo, tail);
    ByteLenConcat(head, [wide]);
    AsciiLen(head);
    AsciiLen(tail);
    assert [wide][1..] == "" && ByteLen([wide]) == 2;
    var r := Boundary(c, 14 * 0 + 13);
    if r.Some? {
      BoundaryIff(c, 13, r.value);
      BoundaryIff(c, 14, 13);
      assert c[..13] == upTo;
      BoundariesGrow(c, 13, 14);
      AsciiLen(c[..r.value]);
    }
  }

  /** Parsing either returns a result or panics, when it cuts the text inside a character. */
  datatype Outcome = Panics | Returns(result: Result<seq<Byte>>)

  /** Parses any text; `alphanumeric` says which characters are letters or digits. */
  method FromString(s: string, alphanumeric: char -> bool) returns (o: Outcome)
    requires ExtendsAscii(alphanumeric)
    ensures var c := Filtered(s, alphanumeric);
            && (o.Panics? <==> ByteLen(c) == 56 && !Cuts(c))
            && (o.Returns? && Ascii(c) ==> ParsesCleaned(c, o.result))
            && (o.Returns? && !Ascii(c) ==> o.result.Err?)
    ensures Ascii(s) ==> o.Returns? && Parses(s, o.result)
    ensures o.Returns? && o.result.Ok? ==> |o.result.value| == ID_BYTES
  {
    hide Verified, Cleaned, IsHex, InAlphabet, CodeBits, ByteBits, Group, Filtered, DataOf;
    if Ascii(s) {
      FilteredAscii(s, alphanumeric);
    }
    var cleaned := Filtered(s, alphanumeric);
    AsciiLen(cleaned);
    if ByteLen(cleaned) == 64 {
      if !Ascii(cleaned) {
        return Returns(Err("Invalid hex encoding"));
      }
      var bytes := DecodeHex(cleaned);
      o := Returns(bytes);
    } else if ByteLen(cleaned) == 56 {
      if Ascii(cleaned) {
        AsciiData(cleaned);
      }
      if !Cuts(cleaned) {
        return Panics;
      }
      var data := AllGroups(cleaned);
      var ok := VerifyLuhn32Checksum(cleaned);
      if !ok {
        return Returns(Err("Invalid Luhn-32 checksum"));
      }
      var bytes := FromBase32(data);
      if bytes.Ok? {
        WideInData(cleaned);
      }
      o := Returns(bytes);
    } else {
      o := Returns(Err("Invalid device ID length"));
    }
  }

  // ---- Printing and parsing together ----

  /** Parsing the printed form of any 32-byte ID returns that ID. */
  lemma {:induction false} RoundTrip(id: seq<Byte>, text: string, r: Result<seq<Byte>>)
    requires |id| == ID_BYTES && Prints(text, id) && Parses(text, r)
    ensures r == Ok(id)
  {
    hide Prints, WithChecks, Cleaned, Verified, Encodes, Decodes, DataOf;
    var b32 := PrintedCleaned(text, id);
    ChecksVerify(b32);
    EncodeDecode(id, Codes(b32));
    CheckedGroups(b32);
    DecodesUnique(id, r.value, Codes(b32));
  }

  ghost predicate UpperCase(s: string) {
    forall i :: 0 <= i < |s| ==> s[i] == Upper(s[i])
  }

  lemma {:induction false} UpperSymbols(s: string)
    requires InAlphabet(s)
    ensures UpperCase(s) <==> s == Symbols(Codes(s))
  {
  }

  lemma {:induction false} LowBitsZero(c: Code)
    ensures BitsOf(c, 4) == Zeros(4) <==> c % 16 == 0
  {
    var b := BitsOf(c, 4);
    assert BitsOf(c / 2, 3) == BitsOf(c / 2 / 2, 2) + [c / 2 % 2 == 1];
    assert BitsOf(c / 2 / 2, 2) == BitsOf(c / 2 / 2 / 2, 1) + [c / 2 / 2 % 2 == 1];
    assert BitsOf(c / 2 / 2 / 2, 1) == [c / 2 / 2 / 2 % 2 == 1];
    assert Zeros(4) == [false, false, false, false];
    assert b == [c / 2 / 2 / 2 % 2 == 1, c / 2 / 2 % 2 == 1, c / 2 % 2 == 1, c % 2 == 1];
  }

  lemma {:induction false} SpareBits(codes: seq<Code>)
    requires |codes| == 52
    ensures CodeBits(codes)[256..] == BitsOf(codes[51], 4)
  {
    var front, last := CodeBits(codes[..51]), codes[51];
    BitsSplit(last, 1, 4);
    hide BitsOf, ShiftRight;
    assert CodeBits(codes) == front + (BitsOf(ShiftRight(last, 4), 1) + BitsOf(last, 4));
  }

  /** Codes that spell an ID spell it canonically exactly when the four spare bits are zero. */
  lemma {:induction false} CanonicalBits(codes: seq<Code>, id: seq<Byte>)
    requires |codes| == 52 && |id| == ID_BYTES && Decodes(id, codes)
    ensures Encodes(codes, id) <==> codes[51] % 16 == 0
  {
    hide ByteBits, CodeBits, BitsOf;
    SpareBits(codes);
    LowBitsZero(codes[51]);
    var all := CodeBits(codes);
    assert all == all[..256] + all[256..];
    assert (ByteBits(id) + Zeros(4))[256..] == Zeros(4);
  }

  /** An accepted 56-character ID prints back to the same characters exactly when its data
      characters are in upper case and the last one's four spare bits are zero. */
  lemma {:induction false} ReprintsIffCanonical(s: string, id: seq<Byte>, text: string)
    requires |Cleaned(s)| == 56 && Parses(s, Ok(id)) && |id| == ID_BYTES && Prints(text, id)
    ensures InAlphabet(DataOf(Cleaned(s)))
    ensures Cleaned(text) == Cleaned(s) <==>
            UpperCase(DataOf(Cleaned(s))) && Codes(DataOf(Cleaned(s)))[51] % 16 == 0
  {
    hide Prints, WithChecks, Verified, Encodes, Decodes, DataOf, Cleaned, UpperCase, Symbols, InAlphabet;
    var c := Cleaned(s);
    var d := DataOf(c);
    var b32 := PrintedCleaned(text, id);
    ChecksVerify(b32);
    VerifiedMeans(c);
    UpperSymbols(d);
    UpperSymbols(b32);
    CanonicalBits(Codes(d), id);
    if UpperCase(d) && Codes(d)[51] % 16 == 0 {
      EncodesUnique(Codes(d), Codes(b32), id);
    }
  }

  /** Every ID's own printed form passes the validity check. */
  lemma {:induction false} PrintedIsValid(id: seq<Byte>, text: string)
    requires |id| == ID_BYTES && Prints(text, id)
    ensures Verified(Cleaned(text))
  {
    hide Prints, WithChecks, Verified, Cleaned, DataOf;
    var b32 := PrintedCleaned(text, id);
    ChecksVerify(b32);
  }

  lemma {:induction false} DashedAscii(s: string)
    requires forall i :: 0 <= i < |s| ==> Alphanumeric(s[i])
    ensures Ascii(Dashed(s))
  {
    if |s| > 7 {
      DashedAscii(s[7..]);
      assert Ascii(s[..7] + "-");
    }
  }

  lemma {:induction false} PrintedAscii(text: string, id: seq<Byte>)
    requires Prints(text, id)
    ensures Ascii(text)
  {
    hide WithChecks, EncodesText, Alphanumeric, Ascii;
    var b32 :| |b32| == 52 && EncodesText(b32, id) && text == Dashed(WithChecks(b32));
    PrintedAlphanumeric(b32, id);
    DashedAscii(WithChecks(b32));
  }

  lemma {:induction false} DashesEverySeven(s: string, groups: nat)
    requires |s| == 7 * groups && groups > 0 && forall i :: 0 <= i < |s| ==> Alphanumeric(s[i])
    ensures |Dashed(s)| == 8 * groups - 1
    ensures forall i :: 0 <= i < |Dashed(s)| ==> (Dashed(s)[i] == '-' <==> i % 8 == 7)
    decreases groups
  {
    if groups > 1 {
      DashesEverySeven(s[7..], groups - 1);
      var rest := Dashed(s[7..]);
      forall i | 0 <= i < |Dashed(s)|
        ensures Dashed(s)[i] == '-' <==> i % 8 == 7
      {
        if i >= 8 {
          assert Dashed(s)[i] == rest[i - 8];
        }
      }
    }
  }

  /** A printed ID has 63 characters, with a dash after every seven. */
  lemma {:induction false} PrintedShape(text: string, id: seq<Byte>)
    requires Prints(text, id)
    ensures |text| == 63 && forall i :: 0 <= i < 63 ==> (text[i] == '-' <==> i in {7, 15, 23, 31, 39, 47, 55})
  {
    hide WithChecks, EncodesText, Alphanumeric;
    var b32 :| |b32| == 52 && EncodesText(b32, id) && text == Dashed(WithChecks(b32));
    PrintedAlphanumeric(b32, id);
    CheckedGroups(b32);
    DashesEverySeven(WithChecks(b32), 8);
  }

  /** Writing an ID out as text and reading it in again, as saved configurations do. */
  method SerializeDeserialize(id: seq<Byte>, alphanumeric: char -> bool) returns (r: Result<seq<Byte>>)
    requires |id| == ID_BYTES && ExtendsAscii(alphanumeric)
    ensures r == Ok(id)
  {
    hide Prints, Parses, Ascii;
    var text := Display(id);
    PrintedAscii(text, id);
    var o := FromString(text, alphanumeric);
    r := o.result;
    RoundTrip(id, text, r);
  }

  /** The validity check of an ID against its own printed form cannot fail. */
  method IsValid(id: seq<Byte>) returns (ok: bool)
    requires |id| == ID_BYTES
    ensures ok
  {
    hide Prints;
    var text := Display(id);
    PrintedIsValid(id, text);
    PrintedAscii(text, id);
    FilteredAscii(text, Alphanumeric);
    var cleaned := Cleaned(text);
    AsciiLen(cleaned);
    ok := |cleaned| == 56;
    if ok {
      AsciiGroups(cleaned);
      ok := VerifyLuhn32Checksum(cleaned);
    }
  }
}
