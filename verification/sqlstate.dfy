/**
 * Packing of the five-character SQLSTATE status code (SQL standard,
 * ISO/IEC 9075-2, subclause "SQLSTATE") into one integer, six bits per
 * character, the first character in the lowest bits.
 */
module Sqlstate {
  import opened Ints

  /** A character whose offset from '0' fits in six bits: '0' .. 'o', which covers digits and upper-case letters. */
  predicate Packable(ch: char)
  {
    '0' <= ch <= 'o'
  }

  /**
   * `pgsixbit`: the code point minus that of '0', computed in u32 (so it
   * wraps below '0'), masked with 0x3f.  The mask of a non-negative value
   * is its remainder modulo 64.
   */
  function PgSixbit(ch: char): (r: int)
    ensures 0 <= r < 64
    ensures Packable(ch) ==> r == ch as int - '0' as int
  {
    ((ch as int - '0' as int) % U32_MODULUS) % 64
  }

  /**
   * `make_sqlstate`: the five six-bit values shifted left by 0, 6, 12, 18
   * and 24 bits (written here as multiplications), summed in u32 and cast
   * to i32.
   */
  function MakeSqlstate(ch1: char, ch2: char, ch3: char, ch4: char, ch5: char): (code: int)
    ensures 0 <= code < 0x4000_0000
  {
    var sum := PgSixbit(ch1) * 1 + PgSixbit(ch2) * 64 + PgSixbit(ch3) * 4096
             + PgSixbit(ch4) * 262144 + PgSixbit(ch5) * 16777216;
    AsI32(sum % U32_MODULUS)
  }

  /** `(code >> (6 * i)) & 0x3f` for a non-negative code: the i-th six-bit field. */
  function SixbitField(code: int, i: nat): (r: int)
    requires code >= 0
    ensures 0 <= r < 64
    decreases i
  {
    if i == 0 then code % 64 else SixbitField(code / 64, i - 1)
  }

  /** The i-th character of a packed code: its six-bit field added back to '0'. */
  function SqlstateChar(code: int, i: nat): (ch: char)
    requires code >= 0
    ensures '0' <= ch <= 'o'
  {
    (SixbitField(code, i) + '0' as int) as char
  }

  /** The five characters of a packed code, first character first. */
  function Unpack(code: int): (s: seq<char>)
    requires code >= 0
    ensures |s| == 5
  {
    [SqlstateChar(code, 0), SqlstateChar(code, 1), SqlstateChar(code, 2),
     SqlstateChar(code, 3), SqlstateChar(code, 4)]
  }

  const ERRCODE_EXTERNAL_ROUTINE_EXCEPTION: int := MakeSqlstate('3', '8', '0', '0', '0')

  lemma DivMod64(lo: int, hi: int)
    requires 0 <= lo < 64
    ensures (lo + 64 * hi) % 64 == lo
    ensures (lo + 64 * hi) / 64 == hi
  {
  }

  /** Five six-bit values packed in base 64 come back out field by field. */
  lemma {:induction false} FieldsOfPacked(s0: int, s1: int, s2: int, s3: int, s4: int)
    requires 0 <= s0 < 64 && 0 <= s1 < 64 && 0 <= s2 < 64 && 0 <= s3 < 64 && 0 <= s4 < 64
    ensures var code := s0 * 1 + s1 * 64 + s2 * 4096 + s3 * 262144 + s4 * 16777216;
      0 <= code < 0x4000_0000 &&
      SixbitField(code, 0) == s0 && SixbitField(code, 1) == s1 && SixbitField(code, 2) == s2 &&
      SixbitField(code, 3) == s3 && SixbitField(code, 4) == s4
  {
    var t3 := s3 + 64 * s4;
    var t2 := s2 + 64 * t3;
    var t1 := s1 + 64 * t2;
    var code := s0 + 64 * t1;
    assert code == s0 * 1 + s1 * 64 + s2 * 4096 + s3 * 262144 + s4 * 16777216;
    DivMod64(s0, t1);
    DivMod64(s1, t2);
    DivMod64(s2, t3);
    DivMod64(s3, s4);
    DivMod64(s4, 0);
    assert SixbitField(code, 2) == SixbitField(t1, 1) == SixbitField(t2, 0);
    assert SixbitField(code, 3) == SixbitField(t1, 2) == SixbitField(t2, 1) == SixbitField(t3, 0);
    assert SixbitField(code, 4) == SixbitField(t1, 3) == SixbitField(t2, 2) == SixbitField(t3, 1)
        == SixbitField(s4, 0);
  }

  /** Round trip: unpacking a code made from packable characters gives back those characters. */
  lemma MakeSqlstateRoundTrip(ch1: char, ch2: char, ch3: char, ch4: char, ch5: char)
    requires Packable(ch1) && Packable(ch2) && Packable(ch3) && Packable(ch4) && Packable(ch5)
    ensures Unpack(MakeSqlstate(ch1, ch2, ch3, ch4, ch5)) == [ch1, ch2, ch3, ch4, ch5]
  {
    var s1, s2, s3, s4, s5 := PgSixbit(ch1), PgSixbit(ch2), PgSixbit(ch3), PgSixbit(ch4), PgSixbit(ch5);
    var code := s1 * 1 + s2 * 64 + s3 * 4096 + s4 * 262144 + s5 * 16777216;
    FieldsOfPacked(s1, s2, s3, s4, s5);
    assert MakeSqlstate(ch1, ch2, ch3, ch4, ch5) == code;
    var u := Unpack(code);
    assert u[0] == ch1 && u[1] == ch2 && u[2] == ch3 && u[3] == ch4 && u[4] == ch5;
  }

  /** Distinct five-character codes of packable characters pack to distinct integers. */
  lemma MakeSqlstateInjective(a1: char, a2: char, a3: char, a4: char, a5: char,
                              b1: char, b2: char, b3: char, b4: char, b5: char)
    requires Packable(a1) && Packable(a2) && Packable(a3) && Packable(a4) && Packable(a5)
    requires Packable(b1) && Packable(b2) && Packable(b3) && Packable(b4) && Packable(b5)
    requires MakeSqlstate(a1, a2, a3, a4, a5) == MakeSqlstate(b1, b2, b3, b4, b5)
    ensures [a1, a2, a3, a4, a5] == [b1, b2, b3, b4, b5]
  {
    MakeSqlstateRoundTrip(a1, a2, a3, a4, a5);
    MakeSqlstateRoundTrip(b1, b2, b3, b4, b5);
  }

  /**
   * Only the offset modulo 64 survives: a character below '0' wraps around
   * and collides with the character 64 code points above it.
   */
  lemma PgSixbitWrapsModulo64(ch: char)
    requires ch < '0'
    ensures PgSixbit(ch) == PgSixbit((ch as int + 64) as char)
  {
  }

  /** "38000" (external routine exception) packs to 3 + (8 << 6) = 515. */
  lemma ExternalRoutineExceptionValue()
    ensures ERRCODE_EXTERNAL_ROUTINE_EXCEPTION == 515
    ensures Unpack(ERRCODE_EXTERNAL_ROUTINE_EXCEPTION) == "38000"
  {
    MakeSqlstateRoundTrip('3', '8', '0', '0', '0');
  }
}
