/** Printing and parsing numbers (lib/string.c:68-129, 165-224). */
module Strings {
  import opened Bytes

  const NUL := 0 as char

  // ---- digits and their values ----

  /** The digit for d: 0-9, then A-Z, or a-z in small letters, and the characters that follow;
      a character has 8 bits, so digits from 201 on start over at 0. */
  function Digit(d: nat, small: bool): (c: char)
    requires d < 255
  {
    (if d < 10 then 0x30 + d
     else if small then (0x57 + d) % 256
     else if d < 208 then (0x37 + d) % 256
     else d - 208) as char
  }

  /** 0-9, then A-Z or a-z: the digits of the table in number (lib/string.c:169-173). */
  lemma DigitShown(d: nat, small: bool)
    requires d < 36
    ensures Digit(d, small) as int == if d < 10 then 0x30 + d else if small then 0x61 + (d - 10) else 0x41 + (d - 10)
  {
  }

  function Quot(n: nat, base: nat): nat
    requires base > 0
  {
    n / base
  }

  function Rem(n: nat, base: nat): nat
    requires base > 0
  {
    n % base
  }

  lemma {:induction false} AtLeastTwice(q: nat, base: nat)
    requires base >= 2
    ensures 2 * q <= q * base && (q == 0 ==> q * base == 0)
  {
    if q > 0 {
      AtLeastTwice(q - 1, base);
      assert q * base == (q - 1) * base + base;
    }
  }

  lemma DivMod(n: nat, base: nat)
    requires base >= 2
    ensures Quot(n, base) * base + Rem(n, base) == n && Rem(n, base) < base
    ensures 2 * Quot(n, base) <= n
    ensures n < base ==> Quot(n, base) == 0 && Rem(n, base) == n
    ensures n >= base ==> 0 < Quot(n, base) < n
  {
    var q := n / base;
    assert q * base + n % base == n;
    AtLeastTwice(q, base);
  }

  /** n in the given base, most significant digit first. */
  function Text(n: nat, base: nat, small: bool): (s: string)
    requires 2 <= base <= 255
    ensures |s| > 0
    decreases n
  {
    DivMod(n, base);
    if n < base then [Digit(n, small)] else Text(Quot(n, base), base, small) + [Digit(Rem(n, base), small)]
  }

  /** No zeros in front. */
  lemma {:induction false} NoZerosInFront(n: nat, base: nat, small: bool)
    requires 2 <= base <= 255 && (small ==> base <= 36)
    ensures Text(n, base, small)[0] == '0' <==> n == 0
    ensures n == 0 ==> |Text(n, base, small)| == 1
    decreases n
  {
    hide Quot, Rem;
    DivMod(n, base);
    if n >= base {
      NoZerosInFront(Quot(n, base), base, small);
    }
  }

  function Rev(s: string): (r: string)
    ensures |r| == |s| && forall i :: 0 <= i < |s| ==> r[i] == s[|s| - 1 - i]
  {
    if s == [] then [] else Rev(s[1..]) + [s[0]]
  }

  /** isnum as a function: the value of a hexadecimal digit, 255 for anything else. */
  function NumOf(c: char): (v: u8) {
    if '0' <= c <= '9' then c as int - '0' as int
    else if 'a' <= c <= 'f' then c as int - 'a' as int + 10
    else if 'A' <= c <= 'F' then c as int - 'A' as int + 10
    else 255
  }

  const CODE_A := "0123456789abcdef"
  const CODE_B := "0123456789ABCDEF"

  /** lib/string.c:68. The result is an unsigned char, so the -1 of a failed search comes
      back as 255. */
  method IsNum(ch: char) returns (v: u8)
    ensures v == NumOf(ch)
  {
    var i := 0;
    while i < 16
      invariant i <= 16
      invariant forall j :: 0 <= j < i ==> CODE_A[j] != ch && CODE_B[j] != ch
    {
      if CODE_A[i] == ch || CODE_B[i] == ch {
        CodeValue(i);
        return i;
      }
      i := i + 1;
    }
    DigitListed(ch);
    return 255;
  }

  lemma CodeValue(i: nat)
    requires i < 16
    ensures NumOf(CODE_A[i]) == NumOf(CODE_B[i]) == i
  {
  }

  lemma DigitListed(ch: char)
    ensures NumOf(ch) == 255 || (NumOf(ch) < 16 && (CODE_A[NumOf(ch)] == ch || CODE_B[NumOf(ch)] == ch))
  {
  }

  /** The value Horner's rule gives to the characters of s. */
  function Horner(s: string, base: int): int {
    if s == [] then 0 else Horner(s[..|s|-1], base) * base + NumOf(s[|s|-1])
  }

  lemma DigitValue(d: nat, small: bool)
    requires d < 16
    ensures NumOf(Digit(d, small)) == d
  {
  }

  /** The round trip on values: reading back what was printed. */
  lemma {:induction false} HornerOfText(n: nat, base: nat, small: bool)
    requires 2 <= base <= 16
    ensures Horner(Text(n, base, small), base) == n
    decreases n
  {
    hide Quot, Rem, Digit, NumOf;
    var s := Text(n, base, small);
    DivMod(n, base);
    DigitValue(Rem(n, base), small);
    if n < base {
      assert s[..0] == [];
    } else {
      HornerOfText(Quot(n, base), base, small);
      assert s[..|s|-1] == Text(Quot(n, base), base, small);
    }
  }

  // ---- itoa and strtol ----

  lemma RevSnoc(s: string, c: char)
    ensures Rev(s + [c]) == [c] + Rev(s)
  {
  }

  /** n has at most as many digits as bits. */
  lemma {:induction false} TextShort(n: nat, base: nat, small: bool, k: nat)
    requires 2 <= base <= 255 && k > 0 && n < Pow2(k)
    ensures |Text(n, base, small)| <= k
    decreases n
  {
    hide Quot, Rem, Digit;
    DivMod(n, base);
    if n >= base {
      assert Pow2(k) == 2 * Pow2(k - 1);
      TextShort(Quot(n, base), base, small, k - 1);
    }
  }

  lemma U32Bits(n: u32, base: nat, small: bool)
    requires 2 <= base <= 255
    ensures |Text(n, base, small)| <= 32
  {
    assert Pow2(8) == 256 by { ByteIsPow8(); }
    assert Pow2(12) == 16 * Pow2(8);
    assert Pow2(16) == 16 * Pow2(12);
    assert Pow2(20) == 16 * Pow2(16);
    assert Pow2(24) == 16 * Pow2(20);
    assert Pow2(28) == 16 * Pow2(24);
    assert Pow2(32) == 16 * Pow2(28);
    TextShort(n, base, small, 32);
  }

  /** Moving one digit from the front part to the backwards rest. */
  lemma TextStep(n: nat, base: nat, small: bool, low: string)
    requires 2 <= base <= 255
    ensures Rem(n, base) < 255
    ensures var low' := low + [Digit(Rem(n, base), small)];
            if Quot(n, base) == 0 then Text(n, base, small) + Rev(low) == Rev(low') && |Text(n, base, small)| == 1
            else && Text(n, base, small) + Rev(low) == Text(Quot(n, base), base, small) + Rev(low')
                 && |Text(n, base, small)| == |Text(Quot(n, base), base, small)| + 1
  {
    hide Quot, Rem, Digit;
    DivMod(n, base);
    var d := Digit(Rem(n, base), small);
    RevSnoc(low, d);
    assert n >= base ==> Text(n, base, small) == Text(Quot(n, base), base, small) + [d];
  }

  /** The character itoa stores for d, computed in an unsigned char. */
  lemma DigitStored(d: nat)
    requires d < 255
    ensures var ch := (d + 0x30) % 256; Digit(d, false) == (if ch > 0x39 then (ch + 0x07) % 256 else ch) as char
  {
  }

  /** The digit loop of itoa (lib/string.c:114-120): the text comes out backwards. */
  method Split(decem: u32, buf: array<char>, base: nat) returns (len: nat)
    requires 2 <= base <= 255 && buf.Length >= 33
    modifies buf
    ensures len == |Text(decem, base, false)| < buf.Length && Rev(buf[..len]) == Text(decem, base, false)
    ensures forall i :: len <= i < buf.Length ==> buf[i] == old(buf[i])
  {
    hide Quot, Rem, Text;
    U32Bits(decem, base, false);
    var tmp: nat := decem;
    len := 0;
    var more := true;
    while more
      invariant 0 <= len <= 32 && (more <==> len == 0 || tmp != 0)
      invariant if more then |Text(decem, base, false)| == |Text(tmp, base, false)| + len
                             && Text(decem, base, false) == Text(tmp, base, false) + Rev(buf[..len])
                else |Text(decem, base, false)| == len && Text(decem, base, false) == Rev(buf[..len])
      invariant forall i :: len <= i < buf.Length ==> buf[i] == old(buf[i])
      decreases if more then tmp + 1 else 0
    {
      DivMod(tmp, base);
      ghost var low := buf[..len];
      TextStep(tmp, base, false, low);
      var ch := (Rem(tmp, base) + 0x30) % 256;
      if ch > 0x39 {
        ch := (ch + 0x07) % 256;
      }
      DigitStored(Rem(tmp, base));
      buf[len] := ch as char;
      len := len + 1;
      assert buf[..len] == low + [Digit(Rem(tmp, base), false)];
      tmp := Quot(tmp, base);
      more := tmp != 0;
    }
  }

  /** The second loop (lib/string.c:123-127): the first len characters are reversed in
      place. */
  method TurnAround(buf: array<char>, len: nat)
    requires 0 < len <= buf.Length
    modifies buf
    ensures buf[..len] == Rev(old(buf[..len]))
    ensures forall i :: len <= i < buf.Length ==> buf[i] == old(buf[i])
  {
    ghost var s := buf[..];
    var tmp, index := 0, len - 1;
    while tmp < index
      invariant 0 <= tmp && tmp + index == len - 1 && tmp <= index + 1
      invariant forall i :: 0 <= i < tmp ==> buf[i] == s[len - 1 - i]
      invariant forall i :: tmp <= i <= index ==> buf[i] == s[i]
      invariant forall i :: index < i < len ==> buf[i] == s[len - 1 - i]
      invariant forall i :: len <= i < buf.Length ==> buf[i] == s[i]
    {
      var ch := buf[tmp];
      buf[tmp] := buf[index];
      buf[index] := ch;
      tmp, index := tmp + 1, index - 1;
    }
    assert forall i :: 0 <= i < len ==> buf[..len][i] == s[..len][len - 1 - i];
  }

  /** lib/string.c:108: digits from the low end, then the string turned around in place. */
  method Itoa(decem: u32, buf: array<char>, base: nat) returns (len: nat)
    requires 2 <= base <= 255 && buf.Length >= 33
    modifies buf
    ensures len < buf.Length && buf[..len] == Text(decem, base, false) && buf[len] == NUL
    ensures forall i :: len < i < buf.Length ==> buf[i] == old(buf[i])
  {
    len := Split(decem, buf, base);
    buf[len] := NUL;
    ghost var low := buf[..len];
    TurnAround(buf, len);
    assert buf[..len] == Rev(low);
  }

  /** A long: 32-bit two's complement. */
  function Wrap(x: int): (r: int)
    ensures -0x8000_0000 <= r < 0x8000_0000
  {
    (x + 0x8000_0000) % TWO_32 - 0x8000_0000
  }

  function WrapHorner(s: string, base: int): int {
    if s == [] then 0 else Wrap(WrapHorner(s[..|s|-1], base) * base + NumOf(s[|s|-1]))
  }

  /** The characters before the terminating NUL. */
  predicate CString(src: seq<char>, n: nat) {
    n < |src| && src[n] == NUL && forall i :: 0 <= i < n ==> src[i] != NUL
  }

  /** lib/string.c:80, in any base, negative ones included. Every character contributes, a digit
      or not: the branch that reports where parsing stopped is never taken. */
  method Strtol(src: seq<char>, ghost n: nat, base: int) returns (ret: int)
    requires CString(src, n)
    ensures ret == if base == 0 then 0 else WrapHorner(src[..n], base)
  {
    ret := 0;
    if base == 0 {
      return;
    }
    var i := 0;
    while src[i] != NUL
      invariant 0 <= i <= n && ret == WrapHorner(src[..i], base)
      decreases n - i
    {
      var nr := IsNum(src[i]);
      assert src[..i + 1][..i] == src[..i];
      i := i + 1;
      if -1 != nr {
        ret := Wrap(ret * base + nr);
      } else {
        assert false;
      }
    }
  }

  lemma WrapTurns(x: int, k: int)
    ensures Wrap(x + k * TWO_32) == Wrap(x)
  {
  }

  /** Cutting down to 32 bits after each character, or once at the end, is the same. */
  lemma {:induction false} WrapOnce(s: string, base: int)
    ensures WrapHorner(s, base) == Wrap(Horner(s, base))
    decreases |s|
  {
    hide NumOf;
    if s != [] {
      WrapOnce(s[..|s|-1], base);
      var h, d := Horner(s[..|s|-1], base), NumOf(s[|s|-1]);
      var k := (h + 0x8000_0000) / TWO_32;
      assert Wrap(h) == h - k * TWO_32;
      assert Wrap(h) * base == h * base - k * base * TWO_32;
      WrapTurns(h * base + d, -(k * base));
    }
  }

  /** strtol (itoa (n, b), b) is n as a long, for the bases whose digits isnum knows: n itself
      when a long can hold it, and its two's complement reading when not. */
  lemma RoundTrip(n: nat, base: nat, small: bool)
    requires 2 <= base <= 16
    ensures WrapHorner(Text(n, base, small), base) == Wrap(n)
    ensures n < 0x8000_0000 ==> WrapHorner(Text(n, base, small), base) == n
    ensures 0x8000_0000 <= n < TWO_32 ==> WrapHorner(Text(n, base, small), base) == n - TWO_32
  {
    hide Text, Horner, WrapHorner;
    HornerOfText(n, base, small);
    WrapOnce(Text(n, base, small), base);
    WrapTurns(n, -1);
  }

  /** In larger bases digits from 16 on are read back as 255. */
  lemma NoRoundTripAbove16(base: nat)
    requires 16 < base <= 255
    ensures WrapHorner(Text(16, base, false), base) == 255 != 16
  {
    assert Text(16, base, false) == [Digit(16, false)] && [Digit(16, false)][..0] == [];
  }

  /** All digits of n are ones that isnum knows. */
  predicate LowDigits(n: nat, base: nat)
    requires base >= 2
    decreases n
  {
    DivMod(n, base);
    Rem(n, base) < 16 && (n < base || LowDigits(Quot(n, base), base))
  }

  /** What isnum makes of a digit: some digits from 42 on look like smaller ones. */
  lemma DigitRead(d: nat, small: bool)
    requires d < 255
    ensures NumOf(Digit(d, small)) == d <==> d < 16
    ensures NumOf(Digit(d, small)) <= d + 239
    ensures NumOf(Digit(d, small)) < d ==> d >= 42 && NumOf(Digit(d, small)) < d - 5
  {
  }

  /** In any base Horner's rule undoes the digits exactly when all are below 16. Errors do not cancel:
      a result that is too small is so by more than what one digit can carry. */
  lemma {:induction false} HornerOfTextIff(n: nat, base: nat, small: bool)
    requires 2 <= base <= 255
    ensures Horner(Text(n, base, small), base) == n <==> LowDigits(n, base)
    ensures Horner(Text(n, base, small), base) < n ==> base > 42 && Horner(Text(n, base, small), base) < n - 5
    decreases n
  {
    hide Quot, Rem, Digit, NumOf;
    var s := Text(n, base, small);
    DivMod(n, base);
    DigitRead(Rem(n, base), small);
    if n < base {
      assert s[..0] == [];
    } else {
      HornerOfTextIff(Quot(n, base), base, small);
      assert s[..|s|-1] == Text(Quot(n, base), base, small);
      Scaled(Horner(s[..|s|-1], base), Quot(n, base), base);
    }
  }

  lemma NotNegative(k: nat, base: nat)
    ensures k * base >= 0
  {
  }

  lemma Scaled(h: int, q: int, base: nat)
    ensures h > q ==> h * base >= q * base + base
    ensures h < q - 5 ==> h * base <= q * base - 6 * base
  {
    if h > q {
      var k := h - q - 1;
      NotNegative(k, base);
      assert (q + 1 + k) * base == q * base + base + k * base;
    } else if h < q - 5 {
      var k := q - 6 - h;
      NotNegative(k, base);
      assert (q - 6 - k) * base == q * base - 6 * base - k * base;
    }
  }

  // ---- number ----

  datatype Flags = Flags(zeropad: bool, sign: bool, plus: bool, space: bool, left: bool, special: bool, small: bool)

  type i32 = x: int | -0x8000_0000 <= x < 0x8000_0000

  /** (unsigned)num */
  function Unsigned(num: i32): (u: u32)
    ensures u == 0 <==> num == 0
    ensures num >= 0 ==> u == num
  {
    num % TWO_32
  }

  function Max(a: int, b: int): int {
    if a > b then a else b
  }

  function Repeat(c: char, n: int): (s: string)
    ensures |s| == Max(n, 0) && forall i :: 0 <= i < |s| ==> s[i] == c
  {
    seq(Max(n, 0), i => c)
  }

  function SignOf(num: i32, f: Flags): string {
    if f.sign && num < 0 then "-" else if f.plus then "+" else if f.space then " " else ""
  }

  function PrefixOf(base: int, f: Flags): string {
    if !f.special then "" else if base == 8 then "0" else if base == 16 then ['0', Digit(33, f.small)] else ""
  }

  /** The number whose digits are printed: the magnitude of a signed number, else the value
      of the 32 bits. */
  function Magnitude(num: i32, f: Flags): u32 {
    if f.sign && num < 0 then -(num as int) else Unsigned(num)
  }

  /** What number prints (section 7.19.6.1 of ISO/IEC 9899:1999): sign, prefix, and the
      digits filled up with zeros to the precision; and around them the padding to the field
      width, on the right, inside as zeros, or on the left. */
  function NumberText(num: i32, base: int, size: int, precision: int, f: Flags): string
    requires 2 <= base <= 36
  {
    var digits := Text(Magnitude(num, f), base, f.small);
    var body := Repeat('0', precision - |digits|) + digits;
    var lead := SignOf(num, f) + PrefixOf(base, f);
    Laid(lead, body, size - |lead| - |body|, f)
  }

  function Laid(lead: string, body: string, fill: int, f: Flags): (s: string)
    ensures |s| == |lead| + |body| + Max(fill, 0)
  {
    if f.left then lead + body + Repeat(' ', fill)
    else if f.zeropad then lead + Repeat('0', fill) + body
    else Repeat(' ', fill) + lead + body
  }

  /** The field width is filled, and never cuts the number. */
  lemma NumberLength(num: i32, base: int, size: int, precision: int, f: Flags)
    requires 2 <= base <= 36
    ensures |NumberText(num, base, size, precision, f)|
         == Max(size, |SignOf(num, f)| + |PrefixOf(base, f)| + Max(|Text(Magnitude(num, f), base, f.small)|, precision))
  {
  }

  lemma MoreZeros(a: nat, b: nat, s: string)
    ensures Repeat('0', a) + (Repeat('0', b) + s) == Repeat('0', a + b) + s
  {
    assert Repeat('0', a) + Repeat('0', b) == Repeat('0', a + b);
  }

  /** The 32 bits of a number, or its magnitude. */
  lemma Printed(num: i32, f: Flags)
    ensures Magnitude(num, f) == if num >= 0 then num else if f.sign then -(num as int) else num + 0x1_0000_0000
  {
  }

  lemma LeadShown(num: i32, base: int, f: Flags)
    ensures SignOf(num, f) + PrefixOf(base, f) ==
            (if f.sign && num < 0 then "-" else if f.plus then "+" else if f.space then " " else "")
            + (if f.special && base == 8 then "0" else if f.special && base == 16 then if f.small then "0x" else "0X"
               else "")
  {
    DigitShown(33, f.small);
  }

  /** What is printed, character by character: k spaces, the sign, the prefix, z zeros, the digits of the
      magnitude (or of the 32 bits of an unsigned number) and l spaces. */
  lemma NumberParts(num: i32, base: int, size: int, precision: int, f: Flags) returns (k: nat, z: nat, l: nat)
    requires 2 <= base <= 36
    ensures var value: nat := if num >= 0 then num else if f.sign then -(num as int) else num + 0x1_0000_0000;
            var lead :=
              (if f.sign && num < 0 then "-" else if f.plus then "+" else if f.space then " " else "")
              + (if f.special && base == 8 then "0" else if f.special && base == 16 then if f.small then "0x" else "0X"
                 else "");
            var digits := Text(value, base, f.small);
            && NumberText(num, base, size, precision, f)
               == Repeat(' ', k) + lead + (Repeat('0', z) + digits) + Repeat(' ', l)
            && z + |digits| >= precision && (!f.zeropad || f.left ==> z == 0 || z + |digits| == precision)
            && k + |lead| + z + |digits| + l == Max(size, |lead| + Max(|digits|, precision))
    ensures (k > 0 ==> !f.left && !f.zeropad) && (l > 0 ==> f.left)
  {
    hide Text, Quot, Rem, Laid, SignOf, PrefixOf, Magnitude;
    Printed(num, f);
    LeadShown(num, base, f);
    var digits := Text(Magnitude(num, f), base, f.small);
    var lead := SignOf(num, f) + PrefixOf(base, f);
    var body := Repeat('0', precision - |digits|) + digits;
    var fill := Max(size - |lead| - |body|, 0);
    k := if !f.left && !f.zeropad then fill else 0;
    l := if f.left then fill else 0;
    z := (if !f.left && f.zeropad then fill else 0) + Max(precision - |digits|, 0);
    MoreZeros(z - Max(precision - |digits|, 0), Max(precision - |digits|, 0), digits);
    assert Repeat('0', precision - |digits|) == Repeat('0', Max(precision - |digits|, 0));
    LaidAs(lead, body, size - |lead| - |body|, f);
  }

  lemma LaidAs(lead: string, body: string, fill: int, f: Flags)
    ensures Laid(lead, body, fill, f) ==
            Repeat(' ', if !f.left && !f.zeropad then Max(fill, 0) else 0) + lead
            + (Repeat('0', if !f.left && f.zeropad then Max(fill, 0) else 0) + body)
            + Repeat(' ', if f.left then Max(fill, 0) else 0)
  {
    NoRepeat(' ', 0);
    NoRepeat('0', 0);
    assert Repeat(' ', fill) == Repeat(' ', Max(fill, 0)) && Repeat('0', fill) == Repeat('0', Max(fill, 0));
    Joined(lead, "", body);
  }

  /** One of the padding loops: size characters c, none when size is not positive; the counter
      ends below zero. */
  method Pad(str: array<char>, at: nat, size: int, c: char) returns (next: nat, rest: int)
    requires at + Max(size, 0) <= str.Length
    modifies str
    ensures next == at + Max(size, 0) && rest < 0 && (size <= 0 ==> rest == size - 1)
    ensures str[..next] == old(str[..at]) + Repeat(c, size)
    ensures forall i :: next <= i < str.Length ==> str[i] == old(str[i])
  {
    next, rest := at, size;
    while rest > 0
      invariant at <= next <= str.Length
                && (if size > 0 then 0 <= rest && next + rest == at + size else rest == size && next == at)
      invariant forall i :: 0 <= i < next ==> str[i] == if i < at then old(str[i]) else c
      invariant forall i :: next <= i < str.Length ==> str[i] == old(str[i])
    {
      rest := rest - 1;
      str[next] := c;
      next := next + 1;
    }
    rest := rest - 1;
    assert str[..next] == old(str[..at]) + Repeat(c, size);
  }

  /** The digit loop of number (lib/string.c:190-197): at most 32 characters, backwards, of
      the 36 there is room for. */
  method Digits(num0: i32, base: int, small: bool, tmp: array<char>) returns (i: nat)
    requires 2 <= base <= 36 && tmp.Length == 36
    modifies tmp
    ensures i == |Text(Unsigned(num0), base, small)| <= 32 && Rev(tmp[..i]) == Text(Unsigned(num0), base, small)
  {
    hide Quot, Rem, Text, Unsigned;
    ghost var all := Text(Unsigned(num0), base, small);
    U32Bits(Unsigned(num0), base, small);
    i := 0;
    var num: i32 := num0;
    if num == 0 {
      TextStep(0, base, small, "");
      DivMod(0, base);
      tmp[0] := '0';
      i := 1;
      assert tmp[..1] == [Digit(0, small)];
      return;
    }
    while num != 0
      invariant 0 <= i <= 32
      invariant if num == 0 then |all| == i && all == Rev(tmp[..i])
                else |all| == |Text(Unsigned(num), base, small)| + i
                     && all == Text(Unsigned(num), base, small) + Rev(tmp[..i])
      decreases Unsigned(num)
    {
      ghost var low := tmp[..i];
      TextStep(Unsigned(num), base, small, low);
      DivMod(Unsigned(num), base);
      tmp[i] := Digit(Rem(Unsigned(num), base), small);
      i := i + 1;
      assert tmp[..i] == low + [Digit(Rem(Unsigned(num), base), small)];
      num := Quot(Unsigned(num), base);
    }
  }

  /** The zeros that fill up the precision, then the digits from the last stored to the first. */
  method Body(str: array<char>, at: nat, tmp: array<char>, n: nat, precision: int) returns (next: nat)
    requires n <= tmp.Length && str != tmp && at + Max(n, precision) <= str.Length
    modifies str
    ensures next == at + Max(n, precision)
    ensures str[..next] == old(str[..at]) + (Repeat('0', precision - n) + Rev(tmp[..n]))
    ensures forall i :: next <= i < str.Length ==> str[i] == old(str[i])
  {
    var rest;
    next, rest := Pad(str, at, precision - n, '0');
    ghost var before, from := str[..], next;
    var i := n;
    while i > 0
      invariant 0 <= i <= n && next == from + (n - i)
      invariant forall k :: 0 <= k < str.Length ==>
                  str[k] == if from <= k < next then tmp[n - 1 - (k - from)] else before[k]
    {
      i := i - 1;
      str[next] := tmp[i];
      next := next + 1;
    }
    assert str[..next] == before[..from] + Rev(tmp[..n]);
    assert before[..from] == old(str[..at]) + Repeat('0', precision - n);
  }

  /** One character. */
  method Put(str: array<char>, at: nat, c: char) returns (next: nat)
    requires at < str.Length
    modifies str
    ensures next == at + 1 && str[..next] == old(str[..at]) + [c]
    ensures forall i :: next <= i < str.Length ==> str[i] == old(str[i])
  {
    ghost var s := str[..at];
    str[at] := c;
    next := at + 1;
    assert str[..next] == s + [c];
  }

  /** The sign and the prefix (lib/string.c:203-213). */
  method Lead(str: array<char>, at: nat, num: i32, base: int, f: Flags) returns (next: nat)
    requires at + |SignOf(num, f) + PrefixOf(base, f)| <= str.Length
    modifies str
    ensures next == at + |SignOf(num, f) + PrefixOf(base, f)|
    ensures str[..next] == old(str[..at]) + (SignOf(num, f) + PrefixOf(base, f))
    ensures forall i :: next <= i < str.Length ==> str[i] == old(str[i])
  {
    next := at;
    var sign := if f.sign && num < 0 then '-' else if f.plus then '+' else if f.space then ' ' else NUL;
    if sign != NUL {
      next := Put(str, next, sign);
    }
    assert str[..next] == old(str[..at]) + SignOf(num, f);
    if f.special {
      if base == 8 {
        next := Put(str, next, '0');
      } else if base == 16 {
        next := Put(str, next, '0');
        next := Put(str, next, Digit(33, f.small));
      }
    }
    assert str[..next] == old(str[..at]) + SignOf(num, f) + PrefixOf(base, f);
  }

  lemma MagnitudeBits(num: i32, f: Flags)
    ensures var n: i32 := if f.sign && num < 0 && num != -0x8000_0000 then -(num as int) else num;
            Unsigned(n) == Magnitude(num, f)
  {
  }

  /** The output half of number (lib/string.c:198-223); tmp holds i digits backwards. */
  method Emit(str: array<char>, at: nat, num: i32, base: int, fill: int, precision: int, f: Flags, tmp: array<char>,
              i: nat)
    returns (next: nat)
    requires i <= tmp.Length && str != tmp
    requires var lead, body := SignOf(num, f) + PrefixOf(base, f), Repeat('0', precision - i) + Rev(tmp[..i]);
             at + |lead| + |body| + Max(fill, 0) <= str.Length
    modifies str
    ensures var lead, body := SignOf(num, f) + PrefixOf(base, f), Repeat('0', precision - i) + Rev(old(tmp[..i]));
            && next == at + |Laid(lead, body, fill, f)| <= str.Length
            && str[..next] == old(str[..at]) + Laid(lead, body, fill, f)
    ensures forall i :: next <= i < str.Length ==> str[i] == old(str[i])
  {
    hide Rev, SignOf, PrefixOf, Repeat, Laid;
    var zeropad := f.zeropad && !f.left;
    ghost var lead, body, s0 := SignOf(num, f) + PrefixOf(base, f), Repeat('0', precision - i) + Rev(tmp[..i]),
      str[..at];
    LaidParts(lead, body, fill, f);
    ghost var front := if f.left || zeropad then "" else Repeat(' ', fill);
    ghost var middle := if zeropad then Repeat('0', fill) else "";
    ghost var end := if f.left then Repeat(' ', fill) else "";
    var width := fill;
    next := at;
    if !zeropad && !f.left {
      next, width := Pad(str, next, width, ' ');
    }
    Joined(s0, "", front);
    next := Lead(str, next, num, base, f);
    Joined(s0, front, lead);
    if !f.left {
      ghost var w := width;
      next, width := Pad(str, next, width, if zeropad then '0' else ' ');
      NoRepeat(if zeropad then '0' else ' ', w);
    }
    Joined(s0, front + lead, middle);
    next := Body(str, next, tmp, i, precision);
    Joined(s0, front + lead + middle, body);
    ghost var w := width;
    next, width := Pad(str, next, width, ' ');
    NoRepeat(' ', w);
    Joined(s0, front + lead + middle + body, end);
  }

  lemma Joined(a: string, b: string, c: string)
    ensures a + b + c == a + (b + c) && a + "" == a && b + "" == b && "" + c == c
  {
  }

  lemma NoRepeat(c: char, n: int)
    ensures n <= 0 ==> Repeat(c, n) == ""
  {
  }

  lemma LaidParts(lead: string, body: string, fill: int, f: Flags)
    ensures var zeropad := f.zeropad && !f.left;
            var front := if f.left || zeropad then "" else Repeat(' ', fill);
            var middle := if zeropad then Repeat('0', fill) else "";
            var end := if f.left then Repeat(' ', fill) else "";
            Laid(lead, body, fill, f) == front + lead + middle + body + end
    ensures |Laid(lead, body, fill, f)| == |lead| + |body| + Max(fill, 0)
  {
  }

  /** lib/string.c:165: the text appended at str, or NULL for a base it has no digits for.
      (Negating the least integer gives it back, and the digits are those of its bits.) */
  method Number(str: array<char>, at: nat, num: i32, base: int, size: int, precision: int, f: Flags)
    returns (ok: bool, next: nat)
    requires 2 <= base <= 36 ==> at + |NumberText(num, base, size, precision, f)| <= str.Length
    modifies str
    ensures ok <==> 2 <= base <= 36
    ensures !ok ==> str[..] == old(str[..])
    ensures ok ==> at <= str.Length && next == at + |NumberText(num, base, size, precision, f)| <= str.Length
                   && str[..next] == old(str[..at]) + NumberText(num, base, size, precision, f)
                   && forall i :: next <= i < str.Length ==> str[i] == old(str[i])
  {
    hide Text, Rev, SignOf, PrefixOf, Unsigned, Magnitude, Laid;
    if base < 2 || base > 36 {
      return false, at;
    }
    MagnitudeBits(num, f);
    var tmp := new char[36];
    var n: i32 := if f.sign && num < 0 && num != -0x8000_0000 then -(num as int) else num;
    var width := size - |SignOf(num, f) + PrefixOf(base, f)|;
    var i := Digits(n, base, f.small, tmp);
    width := width - if i > precision then i else precision;
    next := Emit(str, at, num, base, width, precision, f, tmp, i);
    ok := true;
  }
}
