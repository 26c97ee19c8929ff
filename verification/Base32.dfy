/** Unpadded base 32 (section 6 of RFC 4648) through a 32-bit buffer. */
module Base32 {
  import opened Bits
  import opened FileTypes

  type Byte = x: int | 0 <= x < 256
  type Code = x: int | 0 <= x < 32

  const ALPHABET := "ABCDEFGHIJKLMNOPQRSTUVWXYZ234567"

  function Symbol(c: Code): char {
    if c < 26 then 'A' + c as char else '2' + (c - 26) as char
  }

  lemma {:induction false} SymbolIsAlphabet(c: Code)
    ensures ALPHABET[c] == Symbol(c)
  {
  }

  function Upper(c: char): char {
    if 'a' <= c <= 'z' then 'A' + (c - 'a') else c
  }

  /** The position of a character in the alphabet, ignoring case. */
  function CodeOf(c: char): Option<Code> {
    var u := Upper(c);
    if 'A' <= u <= 'Z' then Some((u - 'A') as int)
    else if '2' <= u <= '7' then Some(26 + (u - '2') as int)
    else None
  }

  lemma {:induction false} CodeOfSymbol(c: char, k: Code)
    ensures CodeOf(c) == Some(k) <==> Upper(c) == Symbol(k)
  {
  }

  /** Exactly the characters that are in the alphabet once in upper case have a code. */
  lemma {:induction false} CodeIff(c: char, k: Code)
    ensures CodeOf(c) == Some(k) <==> Upper(c) == ALPHABET[k]
  {
    hide CodeOf, Upper, Symbol;
    CodeOfSymbol(c, k);
    SymbolIsAlphabet(k);
  }

  function Symbols(codes: seq<Code>): (s: string)
    ensures |s| == |codes|
    ensures forall i :: 0 <= i < |codes| ==> s[i] == Symbol(codes[i])
  {
    seq(|codes|, i requires 0 <= i < |codes| => Symbol(codes[i]))
  }

  predicate InAlphabet(s: string) {
    forall i | 0 <= i < |s| :: CodeOf(s[i]).Some?
  }

  function Codes(s: string): (codes: seq<Code>)
    requires InAlphabet(s)
    ensures |codes| == |s|
    ensures forall i :: 0 <= i < |s| ==> codes[i] == CodeOf(s[i]).value
  {
    seq(|s|, i requires 0 <= i < |s| => CodeOf(s[i]).value)
  }

  lemma {:induction false} CodesOfSymbols(codes: seq<Code>)
    ensures InAlphabet(Symbols(codes)) && Codes(Symbols(codes)) == codes
  {
  }

  // ---- The meaning of both directions, on bit strings ----

  ghost function ByteBits(bytes: seq<Byte>): (b: seq<bool>)
    ensures |b| == 8 * |bytes|
  {
    if bytes == [] then [] else ByteBits(bytes[..|bytes| - 1]) + BitsOf(bytes[|bytes| - 1], 8)
  }

  ghost function CodeBits(codes: seq<Code>): (b: seq<bool>)
    ensures |b| == 5 * |codes|
  {
    if codes == [] then [] else CodeBits(codes[..|codes| - 1]) + BitsOf(codes[|codes| - 1], 5)
  }

  /** `codes` spells the bits of `bytes`, filled up with zeros to a whole code. */
  ghost predicate Encodes(codes: seq<Code>, bytes: seq<Byte>) {
    |codes| == (8 * |bytes| + 4) / 5 && CodeBits(codes) == ByteBits(bytes) + Zeros(5 * |codes| - 8 * |bytes|)
  }

  /** `bytes` are the whole bytes spelled by `codes`; fewer than eight bits are left over. */
  ghost predicate Decodes(bytes: seq<Byte>, codes: seq<Code>) {
    |bytes| == 5 * |codes| / 8 && ByteBits(bytes) == CodeBits(codes)[..8 * |bytes|]
  }

  lemma {:induction false} SplitEqual(a: seq<bool>, b: seq<bool>, c: seq<bool>, d: seq<bool>)
    requires |a| == |b| && a + c == b + d
    ensures a == b && c == d
  {
    assert (a + c)[..|a|] == a && (b + d)[..|b|] == b;
    assert (a + c)[|a|..] == c && (b + d)[|b|..] == d;
  }

  lemma {:induction false} ByteBitsInjective(a: seq<Byte>, b: seq<Byte>)
    requires ByteBits(a) == ByteBits(b)
    ensures a == b
    decreases |a|
  {
    hide BitsOf;
    if a != [] {
      Pow2Values();
      var m := |a| - 1;
      SplitEqual(ByteBits(a[..m]), ByteBits(b[..m]), BitsOf(a[m], 8), BitsOf(b[m], 8));
      ByteBitsInjective(a[..m], b[..m]);
      ValueOfBits(a[m], 8);
      ValueOfBits(b[m], 8);
      assert a == a[..m] + [a[m]] && b == b[..m] + [b[m]];
    }
  }

  lemma {:induction false} CodeBitsInjective(a: seq<Code>, b: seq<Code>)
    requires CodeBits(a) == CodeBits(b)
    ensures a == b
    decreases |a|
  {
    hide BitsOf;
    if a != [] {
      Pow2Values();
      var m := |a| - 1;
      SplitEqual(CodeBits(a[..m]), CodeBits(b[..m]), BitsOf(a[m], 5), BitsOf(b[m], 5));
      CodeBitsInjective(a[..m], b[..m]);
      ValueOfBits(a[m], 5);
      ValueOfBits(b[m], 5);
      assert a == a[..m] + [a[m]] && b == b[..m] + [b[m]];
    }
  }

  lemma {:induction false} EncodesUnique(a: seq<Code>, b: seq<Code>, bytes: seq<Byte>)
    requires Encodes(a, bytes) && Encodes(b, bytes)
    ensures a == b
  {
    hide CodeBits, ByteBits;
    CodeBitsInjective(a, b);
  }

  lemma {:induction false} DecodesUnique(a: seq<Byte>, b: seq<Byte>, codes: seq<Code>)
    requires Decodes(a, codes) && Decodes(b, codes)
    ensures a == b
  {
    hide CodeBits, ByteBits;
    ByteBitsInjective(a, b);
  }

  /** Decoding what was encoded gives the bytes back. */
  lemma {:induction false} EncodeDecode(bytes: seq<Byte>, codes: seq<Code>)
    requires Encodes(codes, bytes)
    ensures Decodes(bytes, codes)
  {
    hide CodeBits, ByteBits;
  }

  // ---- The encoder loop ----

  lemma {:induction false} CodeBitsSnoc(codes: seq<Code>, c: Code)
    ensures CodeBits(codes + [c]) == CodeBits(codes) + BitsOf(c, 5)
  {
  }

  lemma {:induction false} ByteBitsSnoc(bytes: seq<Byte>, b: Byte)
    ensures ByteBits(bytes + [b]) == ByteBits(bytes) + BitsOf(b, 8)
  {
  }

  /** Taking the top five of the buffered bits as a code. */
  lemma {:induction false} EmitCode(codes: seq<Code>, buffer: nat, left: nat)
    requires left >= 5
    ensures var c := ShiftRight(buffer, left - 5) % 32;
            CodeBits(codes) + BitsOf(buffer, left) == CodeBits(codes + [c]) + BitsOf(buffer, left - 5)
  {
    hide CodeBits, BitsOf;
    Pow2Values();
    BitsSplit(buffer, 5, left - 5);
    LowBitsMod(ShiftRight(buffer, left - 5), 5, 5);
    CodeBitsSnoc(codes, ShiftRight(buffer, left - 5) % 32);
  }

  /** Taking the top eight of the buffered bits as a byte. */
  lemma {:induction false} EmitByte(bytes: seq<Byte>, buffer: nat, left: nat)
    requires left >= 8
    ensures var b := ShiftRight(buffer, left - 8) % 256;
            ByteBits(bytes) + BitsOf(buffer, left) == ByteBits(bytes + [b]) + BitsOf(buffer, left - 8)
  {
    hide ByteBits, BitsOf;
    Pow2Values();
    BitsSplit(buffer, 8, left - 8);
    LowBitsMod(ShiftRight(buffer, left - 8), 8, 8);
    ByteBitsSnoc(bytes, ShiftRight(buffer, left - 8) % 256);
  }

  lemma {:induction false} FinalCode(codes: seq<Code>, buffer: nat, left: nat)
    requires 0 < left < 5
    ensures var c := ShiftLeft(buffer, 5 - left) % 32;
            CodeBits(codes + [c]) == CodeBits(codes) + BitsOf(buffer, left) + Zeros(5 - left)
  {
    hide CodeBits, BitsOf;
    Pow2Values();
    ShiftLeftBits(buffer, left, 5 - left);
    LowBitsMod(ShiftLeft(buffer, 5 - left), 5, 5);
    CodeBitsSnoc(codes, ShiftLeft(buffer, 5 - left) % 32);
  }

  /** Feeding a byte into the buffer. */
  lemma {:induction false} FeedByte(bytes: seq<Byte>, i: nat, buffer: nat, left: nat, done: seq<bool>)
    requires i < |bytes| && left <= 4
    requires done + BitsOf(buffer, left) == ByteBits(bytes[..i])
    ensures done + BitsOf(ShiftLeft(buffer, 8) + bytes[i], left + 8) == ByteBits(bytes[..i + 1])
  {
    hide ByteBits, BitsOf;
    Pow2Values();
    PushBits(buffer, bytes[i], left, 8);
    ByteBitsSnoc(bytes[..i], bytes[i]);
    assert bytes[..i] + [bytes[i]] == bytes[..i + 1];
  }

  /** Feeding a code into the buffer. */
  lemma {:induction false} FeedCode(codes: seq<Code>, i: nat, buffer: nat, left: nat, done: seq<bool>)
    requires i < |codes| && left <= 7
    requires done + BitsOf(buffer, left) == CodeBits(codes[..i])
    ensures done + BitsOf(ShiftLeft(buffer, 5) + codes[i], left + 5) == CodeBits(codes[..i + 1])
  {
    hide CodeBits, BitsOf;
    Pow2Values();
    PushBits(buffer, codes[i], left, 5);
    CodeBitsSnoc(codes[..i], codes[i]);
    assert codes[..i] + [codes[i]] == codes[..i + 1];
  }

  /** `s` is the upper-case base-32 text of `bytes`. */
  ghost predicate EncodesText(s: string, bytes: seq<Byte>) {
    InAlphabet(s) && s == Symbols(Codes(s)) && Encodes(Codes(s), bytes)
  }

  /** A pushed character together with the code it stands for. */
  lemma {:induction false} PushSymbol(codes: seq<Code>, c: Code)
    ensures Symbols(codes + [c]) == Symbols(codes) + [ALPHABET[c]]
  {
  }

  method ToBase32(bytes: seq<Byte>) returns (s: string)
    ensures EncodesText(s, bytes)
  {
    hide CodeBits, ByteBits, BitsOf, ShiftLeft, ShiftRight, Symbols;
    s := "";
    ghost var codes: seq<Code> := [];
    var buffer: nat, left: nat := 0, 0;
    assert CodeBits([]) + BitsOf(0, 0) == ByteBits(bytes[..0]);
    for i := 0 to |bytes|
      invariant left <= 4
      invariant CodeBits(codes) + BitsOf(buffer, left) == ByteBits(bytes[..i])
      invariant s == Symbols(codes)
    {
      FeedByte(bytes, i, buffer, left, CodeBits(codes));
      buffer := ShiftLeft(buffer, 8) + bytes[i];
      left := left + 8;
      while left >= 5
        invariant CodeBits(codes) + BitsOf(buffer, left) == ByteBits(bytes[..i + 1])
        invariant s == Symbols(codes)
      {
        EmitCode(codes, buffer, left);
        var index := ShiftRight(buffer, left - 5) % 32;
        PushSymbol(codes, index);
        s, codes := s + [ALPHABET[index]], codes + [index];
        left := left - 5;
      }
    }
    assert bytes[..|bytes|] == bytes;
    if left > 0 {
      FinalCode(codes, buffer, left);
      var index := ShiftLeft(buffer, 5 - left) % 32;
      PushSymbol(codes, index);
      s, codes := s + [ALPHABET[index]], codes + [index];
    }
    CodesOfSymbols(codes);
  }

  method FromBase32(s: string) returns (r: Result<seq<Byte>>)
    ensures r.Ok? <==> InAlphabet(s)
    ensures r.Ok? ==> Decodes(r.value, Codes(s))
  {
    hide CodeBits, ByteBits, BitsOf, ShiftLeft, ShiftRight, CodeOf, Codes;
    var bytes: seq<Byte>, buffer: nat, left: nat := [], 0, 0;
    ghost var codes: seq<Code> := [];
    assert ByteBits([]) + BitsOf(0, 0) == CodeBits(codes[..0]);
    for i := 0 to |s|
      invariant left <= 7
      invariant InAlphabet(s[..i]) && codes == Codes(s[..i])
      invariant ByteBits(bytes) + BitsOf(buffer, left) == CodeBits(codes)
    {
      var index := CodeOf(s[i]);
      if index.None? {
        return Err("Invalid Base32 character");
      }
      assert s[..i + 1] == s[..i] + [s[i]];
      codes := codes + [index.value];
      assert codes[..i] == Codes(s[..i]);
      FeedCode(codes, i, buffer, left, ByteBits(bytes));
      assert codes[..i + 1] == codes;
      buffer := ShiftLeft(buffer, 5) + index.value;
      left := left + 5;
      while left >= 8
        invariant ByteBits(bytes) + BitsOf(buffer, left) == CodeBits(codes)
      {
        EmitByte(bytes, buffer, left);
        bytes := bytes + [ShiftRight(buffer, left - 8) % 256];
        left := left - 8;
      }
    }
    assert s[..|s|] == s;
    return Ok(bytes);
  }
}
