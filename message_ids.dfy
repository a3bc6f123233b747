/**
 * Message identifiers of `generate_codecs`: the text
 * `"0x%02x%02x%02x" % (service_id, method_id, role)` read back with
 * `int(text, 16)`. The formatting is modelled digit by digit, so a role of
 * 256 or more prints three hex digits instead of wrapping around.
 */
module MessageIds {

  predicate IsHexDigit(c: char) {
    '0' <= c <= '9' || 'a' <= c <= 'f'
  }

  predicate IsHex(s: string) {
    forall k :: 0 <= k < |s| ==> IsHexDigit(s[k])
  }

  /** The value of one lower-case hex digit. */
  function HexValue(c: char): (d: nat)
    requires IsHexDigit(c)
    ensures d < 16
  {
    if c <= '9' then c as int - '0' as int else c as int - 'a' as int + 10
  }

  /** The lower-case hex digit of `d`. */
  function HexDigit(d: nat): (c: char)
    requires d < 16
    ensures IsHexDigit(c) && HexValue(c) == d
  {
    if d < 10 then ('0' as int + d) as char else ('a' as int + d - 10) as char
  }

  function Pow16(k: nat): (p: nat)
    ensures p >= 1
  {
    if k == 0 then 1 else 16 * Pow16(k - 1)
  }

  /** `int(digits, 16)` for a string of hex digits, most significant first.
      The empty string reads as 0 only as the base of the recursion: Python's
      `int("", 16)` raises `ValueError`, and the pass never parses it. */
  function ParseHex(h: string): nat
    requires IsHex(h)
  {
    if h == [] then 0 else ParseHex(h[..|h| - 1]) * 16 + HexValue(h[|h| - 1])
  }

  /** `k` hex digits read as less than `16^k`. */
  lemma {:induction false} ParseHexBound(h: string)
    requires IsHex(h)
    ensures ParseHex(h) < Pow16(|h|)
    decreases |h|
  {
    if h != [] {
      ParseHexBound(h[..|h| - 1]);
    }
  }

  /** `'%x' % n`: the shortest hex text of `n`, which reads back as `n`. */
  function Hex(n: nat): (h: string)
    ensures 1 <= |h| && IsHex(h)
    ensures ParseHex(h) == n
    ensures |h| == 1 <==> n < 16
    ensures |h| <= 2 <==> n < 256
    decreases n
  {
    if n < 16 then [HexDigit(n)]
    else
      var h := Hex(n / 16) + [HexDigit(n % 16)];
      assert h[..|h| - 1] == Hex(n / 16);
      h
  }

  /** `'%02x' % n`: the hex text of `n` padded with `0` to at least two
      digits; it is exactly two digits long when `n < 256`, and reads back as `n`. */
  function Hex02(n: nat): (h: string)
    ensures |h| >= 2 && IsHex(h)
    ensures ParseHex(h) == n
    ensures |h| == 2 <==> n < 256
  {
    var h := Hex(n);
    if |h| < 2 then
      ParseHexConcat("0", h);
      "0" + h
    else h
  }

  /** Appending one digit multiplies by 16 and adds the digit. */
  lemma ShiftByDigit(x: nat, p: nat, y: nat, d: nat)
    ensures (x * p + y) * 16 + d == x * (16 * p) + (y * 16 + d)
  {
    calc {
      (x * p + y) * 16 + d;
      (x * p) * 16 + y * 16 + d;
      x * (p * 16) + (y * 16 + d);
    }
  }

  /** Reading a concatenation: the left part's value is shifted by the right part's length. */
  lemma {:induction false} ParseHexConcat(a: string, b: string)
    requires IsHex(a) && IsHex(b)
    ensures IsHex(a + b)
    ensures ParseHex(a + b) == ParseHex(a) * Pow16(|b|) + ParseHex(b)
    decreases |b|
  {
    if b == [] {
      assert a + b == a;
    } else {
      var b' := b[..|b| - 1];
      var ab := a + b;
      assert ab[..|ab| - 1] == a + b';
      assert ab[|ab| - 1] == b[|b| - 1];
      ParseHexConcat(a, b');
      var x, y, d := ParseHex(a), ParseHex(b'), HexValue(b[|b| - 1]);
      assert ParseHex(ab) == (x * Pow16(|b'|) + y) * 16 + d;
      assert ParseHex(b) == y * 16 + d;
      assert Pow16(|b|) == 16 * Pow16(|b'|);
      ShiftByDigit(x, Pow16(|b'|), y, d);
    }
  }

  /** The hex digits of `"%02x%02x%02x" % (serviceId, methodId, role)`. */
  function IdDigits(serviceId: nat, methodId: nat, role: nat): (d: string)
    ensures IsHex(d) && |d| >= 6
  {
    ParseHexConcat(Hex02(serviceId), Hex02(methodId));
    ParseHexConcat(Hex02(serviceId) + Hex02(methodId), Hex02(role));
    Hex02(serviceId) + Hex02(methodId) + Hex02(role)
  }

  /** The text `"0x%02x%02x%02x" % (serviceId, methodId, role)`. */
  function IdText(serviceId: nat, methodId: nat, role: nat): (t: string)
    ensures |t| >= 8 && t[..2] == "0x" && IsHex(t[2..])
  {
    "0x" + IdDigits(serviceId, methodId, role)
  }

  /** `int(text, 16)` on a `0x`-prefixed hex literal with at least one
      digit; `int("0x", 16)` raises `ValueError`. */
  function ParseHexLiteral(t: string): nat
    requires |t| >= 3 && t[..2] == "0x" && IsHex(t[2..])
  {
    ParseHex(t[2..])
  }

  /** The identifier of the message with the given role in the given method
      of the given service (request 0, response 1, event `i` at `i + 2`):
      the three numbers laid out side by side in hex, each in as many digits
      as `%02x` prints for it. `IdReadsText` shows this is the value of the
      literal `"0x%02x%02x%02x" % (serviceId, methodId, role)` read back with
      `int(..., 16)`. */
  function Id(serviceId: nat, methodId: nat, role: nat): (id: nat)
    ensures id % 256 == role % 256
    ensures id >= role
  {
    var high := Shift(serviceId, Width02(methodId)) + methodId;
    ShiftByTwo(high, Width02(role));
    LowByteOfSum(Shift(high, Width02(role) - 2), role);
    Shift(high, Width02(role)) + role
  }

  /** Adding a multiple of 256 keeps the low byte. */
  lemma LowByteOfSum(k: nat, r: nat)
    ensures (256 * k + r) % 256 == r % 256
  {
  }

  /** Two hex digits of shift are a factor of 256. */
  lemma {:induction false} ShiftByTwo(hi: nat, digits: nat)
    requires digits >= 2
    ensures Shift(hi, digits) == 256 * Shift(hi, digits - 2)
    decreases digits
  {
    if digits > 2 {
      ShiftByTwo(hi, digits - 1);
    }
  }

  /** The number of digits `'%02x' % n` prints: two below 256, one more per
      further factor of 16. */
  function Width02(n: nat): (w: nat)
    ensures w >= 2
    ensures w == 2 <==> n < 256
  {
    if n < 256 then 2 else 1 + Width02(n / 16)
  }

  /** `Width02` is the length of `Hex02`. */
  lemma {:induction false} Width02IsLength(n: nat)
    ensures |Hex02(n)| == Width02(n)
    decreases n
  {
    if n >= 256 {
      Width02IsLength(n / 16);
      assert Hex(n) == Hex(n / 16) + [HexDigit(n % 16)];
    }
  }

  /** `hi` moved up by `digits` hex digits. */
  function Shift(hi: nat, digits: nat): (r: nat)
    ensures r == hi * Pow16(digits)
  {
    if digits == 0 then hi else 16 * Shift(hi, digits - 1)
  }

  /** The formatted literal is well formed and `int(..., 16)` reads it as `Id`. */
  lemma IdReadsText(serviceId: nat, methodId: nat, role: nat)
    ensures var t := IdText(serviceId, methodId, role);
            |t| >= 8 && t[..2] == "0x" && IsHex(t[2..])
            && ParseHexLiteral(t) == Id(serviceId, methodId, role)
  {
    var t := IdText(serviceId, methodId, role);
    assert t[2..] == IdDigits(serviceId, methodId, role);
    IdDigitsValue(serviceId, methodId, role);
  }

  /** The digits of the literal read as `Id`. */
  lemma IdDigitsValue(serviceId: nat, methodId: nat, role: nat)
    ensures ParseHex(IdDigits(serviceId, methodId, role)) == Id(serviceId, methodId, role)
  {
    var a, b, c := Hex02(serviceId), Hex02(methodId), Hex02(role);
    Width02IsLength(methodId);
    Width02IsLength(role);
    ParseHexConcat(a, b);
    var x := ParseHex(a + b);
    assert x == Shift(serviceId, Width02(methodId)) + methodId;
    ParseHexConcat(a + b, c);
    assert ParseHex(a + b + c) == Shift(x, Width02(role)) + role;
  }

  /** When every component fits a byte, the identifier is the 24-bit
      big-endian packing `serviceId << 16 | methodId << 8 | role`. */
  lemma IdArithmetic(serviceId: nat, methodId: nat, role: nat)
    requires serviceId < 256 && methodId < 256 && role < 256
    ensures Id(serviceId, methodId, role) == serviceId * 65536 + methodId * 256 + role
    ensures Id(serviceId, methodId, role) < 0x100_0000
  {
    assert Pow16(2) == 256;
  }

  /** Within byte-sized components, different components give different
      identifiers. */
  lemma IdInjective(s1: nat, m1: nat, r1: nat, s2: nat, m2: nat, r2: nat)
    requires s1 < 256 && m1 < 256 && r1 < 256
    requires s2 < 256 && m2 < 256 && r2 < 256
    ensures Id(s1, m1, r1) == Id(s2, m2, r2) ==> s1 == s2 && m1 == m2 && r1 == r2
  {
    IdArithmetic(s1, m1, r1);
    IdArithmetic(s2, m2, r2);
  }

  /** The worked example: serviceId 5, methodId 3. */
  lemma IdExample()
    ensures Id(5, 3, 0) == 0x050300 && Id(5, 3, 1) == 0x050301 && Id(5, 3, 2) == 0x050302
  {
    IdArithmetic(5, 3, 0);
    IdArithmetic(5, 3, 1);
    IdArithmetic(5, 3, 2);
  }

  /** A role of 256 (the 255th event of a methodId) prints as three digits and
      does not wrap around: the identifier of that event of methodId 0 of
      serviceId 1 is the identifier of the request of methodId 1 of serviceId 16. */
  lemma IdRoleOverflowCollides()
    ensures Id(1, 0, 256) == Id(16, 1, 0) == 0x100100
  {
    assert Pow16(3) == 4096;
    IdArithmetic(16, 1, 0);
  }
}
