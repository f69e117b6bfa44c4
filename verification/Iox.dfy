/**
 Formatted output: digit strings filled in from the end of a buffer, and a bounded writer.
 */
module Iox {
  const NUL: char := '\0'
  const BUF_SIZE: nat := 64

  // ---------------------------------------------------------------- numbers and digits

  function Pow(b: nat, e: nat): nat {
    if e == 0 then 1 else b * Pow(b, e - 1)
  }

  function Letters(caps: bool): (s: string)
    ensures |s| == 16
  {
    if caps then "0123456789ABCDEF" else "0123456789abcdef"
  }

  function DigitValue(c: char): nat {
    if '0' <= c <= '9' then c as nat - '0' as nat
    else if 'a' <= c <= 'f' then 10 + (c as nat - 'a' as nat)
    else if 'A' <= c <= 'F' then 10 + (c as nat - 'A' as nat)
    else 0
  }

  /** A decimal digit, or a letter of the case asked for. */
  predicate Cased(c: char, caps: bool) {
    '0' <= c <= '9' || (if caps then 'A' <= c <= 'F' else 'a' <= c <= 'f')
  }

  lemma LetterValue(d: nat, caps: bool)
    requires d < 16
    ensures Cased(Letters(caps)[d], caps)
    ensures DigitValue(Letters(caps)[d]) == d && (Letters(caps)[d] == '0' <==> d == 0) && Letters(caps)[d] != NUL
  {
  }

  /** The number a digit string denotes. */
  function Value(s: string, base: nat): nat {
    if s == [] then 0 else DigitValue(s[0]) * Pow(base, |s| - 1) + Value(s[1..], base)
  }

  /** How many digits a number needs; zero needs none. */
  function Significant(n: nat, base: nat): nat
    requires 2 <= base
  {
    if n == 0 then 0 else 1 + Significant(n / base, base)
  }

  lemma PowStep(b: nat, e: nat)
    ensures Pow(b, e + 1) == b * Pow(b, e) && Pow(b, 0) == 1
  {
  }

  lemma DivMod(n: nat, b: nat)
    requires 0 < b
    ensures n == b * (n / b) + n % b && n % b < b
  {
  }

  lemma {:induction false} SignificantBounds(n: nat, base: nat)
    requires 2 <= base
    ensures n < Pow(base, Significant(n, base))
    ensures n > 0 ==> Pow(base, Significant(n, base) - 1) <= n
  {
    hide Pow, Significant;
    PowStep(base, 0);
    SignificantStep(n, base);
    if n > 0 {
      Quotient(n, base);
      SignificantBounds(n / base, base);
      SignificantStep(n / base, base);
      BoundsStep(n, base, n / base, Significant(n / base, base));
    }
  }

  lemma SignificantStep(n: nat, base: nat)
    requires 2 <= base
    ensures Significant(n, base) == if n == 0 then 0 else 1 + Significant(n / base, base)
  {
  }

  lemma Quotient(n: nat, b: nat)
    requires 2 <= b && 0 < n
    ensures n / b < n
  {
  }

  lemma BoundsStep(n: nat, base: nat, q: nat, k: nat)
    requires 2 <= base && q == n / base && q < Pow(base, k) && 0 < n
    requires if q > 0 then k > 0 && Pow(base, k - 1) <= q else k == 0
    ensures Pow(base, k) <= n < Pow(base, k + 1)
  {
    hide Pow;
    DivMod(n, base);
    PowStep(base, k);
    MulLess(base, q, Pow(base, k));
    if q > 0 {
      PowStep(base, k - 1);
      MulLeq(base, Pow(base, k - 1), q);
    }
  }

  lemma MulLess(b: nat, x: nat, y: nat)
    requires x < y
    ensures b * x + b <= b * y
  {
    assert b * y == b * x + b * (y - x);
    MulLeq(b, 1, y - x);
  }

  lemma MulLeq(b: nat, x: nat, y: nat)
    requires x <= y
    ensures b * x <= b * y
  {
    assert b * y == b * x + b * (y - x);
  }

  lemma {:induction false} PowGrows(b: nat, i: nat, j: nat)
    requires 1 <= b && i <= j
    ensures 1 <= Pow(b, i) <= Pow(b, j)
  {
    if j == 0 {
    } else if i == j {
      PowGrows(b, i - 1, j - 1);
      MulLeq(b, 1, Pow(b, j - 1));
    } else {
      PowGrows(b, i, j - 1);
      assert b * Pow(b, j - 1) == Pow(b, j - 1) + (b - 1) * Pow(b, j - 1);
    }
  }

  /** A number between two powers needs exactly that many digits. */
  lemma SignificantIs(n: nat, base: nat, k: nat)
    requires 2 <= base && 0 < k && Pow(base, k - 1) <= n < Pow(base, k)
    ensures Significant(n, base) == k
  {
    PowGrows(base, k - 1, k - 1);
    SignificantBounds(n, base);
    var s := Significant(n, base);
    if s < k {
      PowGrows(base, s, k - 1);
    } else if s > k {
      PowGrows(base, k, s - 1);
    }
  }

  lemma SignificantAtMost(n: nat, base: nat, k: nat)
    requires 2 <= base && n < Pow(base, k)
    ensures Significant(n, base) <= k
  {
    SignificantBounds(n, base);
    var s := Significant(n, base);
    if s > k { PowGrows(base, k, s - 1); }
  }

  predicate Digits(s: string, base: nat) {
    forall i :: 0 <= i < |s| ==> DigitValue(s[i]) < base && s[i] != NUL && (s[i] == '0' <==> DigitValue(s[i]) == 0)
  }

  lemma {:induction false} ValueBound(s: string, base: nat)
    requires Digits(s, base)
    ensures Value(s, base) < Pow(base, |s|)
  {
    hide Pow;
    PowStep(base, 0);
    if s != [] {
      ValueBound(s[1..], base);
      PowStep(base, |s| - 1);
      BelowNext(DigitValue(s[0]), base, Pow(base, |s| - 1), Value(s[1..], base));
    }
  }

  lemma BelowNext(d: nat, base: nat, w: nat, v: nat)
    requires d < base && v < w
    ensures d * w + v < base * w
  {
    MulLeq(w, d + 1, base);
    assert w * (d + 1) == w * d + w;
  }

  /** The most significant digit decides how many digits the number needs. */
  lemma LeadingDigit(s: string, base: nat)
    requires 2 <= base && s != [] && Digits(s, base)
    ensures s[0] != '0' ==> Significant(Value(s, base), base) == |s|
    ensures s[0] == '0' ==> Value(s, base) == Value(s[1..], base)
    ensures Significant(Value(s, base), base) <= |s|
  {
    hide Pow, Significant;
    ValueBound(s, base);
    SignificantAtMost(Value(s, base), base, |s|);
    if s[0] != '0' {
      AtLeastOnce(DigitValue(s[0]), Pow(base, |s| - 1), Value(s[1..], base));
      SignificantIs(Value(s, base), base, |s|);
    }
  }

  lemma AtLeastOnce(d: nat, w: nat, v: nat)
    requires 1 <= d
    ensures w <= d * w + v
  {
    assert d * w == w + (d - 1) * w;
  }

  lemma {:induction false} PowAdd(b: nat, i: nat, j: nat)
    ensures Pow(b, i + j) == Pow(b, i) * Pow(b, j)
  {
    if i > 0 {
      PowAdd(b, i - 1, j);
      Associate(b, Pow(b, i - 1), Pow(b, j));
    }
  }

  lemma Associate(x: nat, y: nat, z: nat)
    ensures x * (y * z) == x * y * z
  {
  }

  lemma {:induction false} PowMonotone(b: nat, c: nat, e: nat)
    requires b <= c
    ensures Pow(b, e) <= Pow(c, e)
  {
    if e > 0 {
      PowMonotone(b, c, e - 1);
      MulLeq(b, Pow(b, e - 1), Pow(c, e - 1));
      MulLeq(Pow(c, e - 1), b, c);
    }
  }

  /** 22 digits are enough for 64 bits even in octal. */
  lemma EnoughDigits(base: nat, end: nat)
    requires base in {8, 10, 16} && 22 <= end
    ensures 0x1_0000_0000_0000_0000 <= Pow(base, end)
  {
    PowGrows(base, 22, end);
    PowMonotone(8, base, 22);
    assert Pow(8, 2) == 64;
    PowAdd(8, 2, 2);
    PowAdd(8, 4, 4);
    PowAdd(8, 8, 8);
    PowAdd(8, 16, 4);
    PowAdd(8, 20, 2);
  }

  lemma ValuePrepend(c: char, s: string, base: nat)
    ensures Value([c] + s, base) == DigitValue(c) * Pow(base, |s|) + Value(s, base)
  {
    assert ([c] + s)[1..] == s;
  }

  /**
   Writes the digits of `num` into `buf`, from the end backwards, and returns where they start:
   at least `decimal` digits, and no leading zeros beyond those.
   */
  method ToDigits(num: nat, base: nat, buf: array<char>, decimal: nat, caps: bool, room: nat)
    returns (p: nat, ghost end: nat)
    requires base in {8, 10, 16} && num < 0x1_0000_0000_0000_0000 && buf.Length == BUF_SIZE && decimal < BUF_SIZE - 1
    requires room in {22, 43}
    modifies buf
    ensures end == (if room > decimal then room else decimal) && p <= end < buf.Length && buf[end] == NUL
    ensures Digits(buf[p..end], base) && Value(buf[p..end], base) == num
    ensures forall i :: p <= i < end ==> Cased(buf[i], caps)
    ensures end - p == if decimal > Significant(num, base) then decimal else Significant(num, base)
  {
    var last := if room > decimal then room else decimal;
    end := last;
    FillDigits(num, base, buf, last, caps);
    p := 0;
    var d := decimal;
    while buf[p] != NUL && buf[p] == '0' && last - d > 0
      invariant 0 <= p <= last && d == decimal + p <= last && buf[last] == NUL
      invariant Digits(buf[p..last], base) && Value(buf[p..last], base) == num
      invariant forall i :: p <= i < last ==> Cased(buf[i], caps)
      decreases last - d
    {
      ghost var s := buf[p..last];
      LeadingDigit(s, base);
      assert s[1..] == buf[p + 1..last];
      p := p + 1;
      d := d + 1;
    }
    ghost var s := buf[p..last];
    if s != [] { LeadingDigit(s, base); }
  }

  method FillDigits(num: nat, base: nat, buf: array<char>, end: nat, caps: bool)
    requires base in {8, 10, 16} && num < 0x1_0000_0000_0000_0000 && 22 <= end < buf.Length
    modifies buf
    ensures buf[end] == NUL && Digits(buf[..end], base) && Value(buf[..end], base) == num
    ensures forall i :: 0 <= i < end ==> Cased(buf[i], caps)
  {
    hide Pow, Value, Letters, DigitValue, Cased;
    buf[end] := NUL;
    var n: nat, cnt := num, end;
    PowStep(base, 0);
    EmptyValue(base);
    assert buf[end..end] == [];
    while cnt > 0
      invariant 0 <= cnt <= end && buf[end] == NUL && Digits(buf[cnt..end], base)
      invariant num == n * Pow(base, end - cnt) + Value(buf[cnt..end], base)
      invariant forall i :: cnt <= i < end ==> Cased(buf[i], caps)
    {
      cnt := cnt - 1;
      ghost var s := buf[cnt + 1..end];
      LetterValue(n % base, caps);
      buf[cnt] := Letters(caps)[n % base];
      assert buf[cnt..end] == [buf[cnt]] + s;
      ValuePrepend(buf[cnt], s, base);
      OneDigit(n, base, |s|);
      DivMod(n, base);
      n := n / base;
    }
    assert buf[0..end] == buf[..end];
    EnoughDigits(base, end);
    NothingLeft(n, Pow(base, end), Value(buf[..end], base), num);
  }

  lemma NothingLeft(n: nat, w: nat, v: nat, num: nat)
    requires num == n * w + v && num < w
    ensures n == 0 && v == num
  {
    if n > 0 { AtLeastOnce(n, w, v); }
  }

  lemma OneDigit(n: nat, base: nat, e: nat)
    requires 2 <= base
    ensures n * Pow(base, e) == n / base * Pow(base, e + 1) + n % base * Pow(base, e)
  {
    DivMod(n, base);
    PowStep(base, e);
    Distribute(n / base, n % base, base, Pow(base, e));
  }

  lemma Distribute(q: nat, r: nat, base: nat, w: nat)
    ensures (base * q + r) * w == q * (base * w) + r * w
  {
  }

  lemma EmptyValue(base: nat)
    ensures Value([], base) == 0
  {
  }

  // ---------------------------------------------------------------- bounded output

  /**
   A piece of a format with its argument already turned into text: literal text, or a conversion
   with its prefix, field width, filler, justification and, for strings only, precision.
   */
  datatype Piece =
    | Literal(text: string)
    | Conversion(prefix: string, width: int, zero: bool, left: bool, str: string, isString: bool, precision: int)

  function Repeat(c: char, n: int): (s: string)
    ensures |s| == if n > 0 then n else 0
  {
    if n <= 0 then [] else [c] + Repeat(c, n - 1)
  }

  /** The width counts the whole string, whatever its precision. */
  function Fill(p: Piece): int
    requires p.Conversion?
  {
    if p.width > 0 then p.width - (|p.str| + |p.prefix|) else p.width
  }

  function Filler(p: Piece): char
    requires p.Conversion?
  {
    if p.zero then '0' else ' '
  }

  /** Only part of the string is printed. */
  predicate Cut(p: Piece) {
    p.Conversion? && p.isString && 0 <= p.precision < |p.str|
  }

  function Body(p: Piece): string
    requires p.Conversion?
  {
    if Cut(p) then p.str[..p.precision] else p.str
  }

  function Before(p: Piece): string
    requires p.Conversion?
  {
    (if p.zero then p.prefix else []) +
    (if p.left then [] else Repeat(Filler(p), Fill(p))) +
    (if p.zero then [] else p.prefix)
  }

  function After(p: Piece): string
    requires p.Conversion?
  {
    if p.left then Repeat(Filler(p), Fill(p)) else []
  }

  function Expand(p: Piece): string {
    if p.Literal? then p.text else Before(p) + Body(p) + After(p)
  }

  /**
   A conversion is padded to its width: with zeros between prefix and text, with blanks before both,
   or after both when it is left-justified.  A cut string is padded as if it were whole.
   */
  lemma FieldLayout(p: Piece)
    requires p.Conversion?
    ensures var whole := |p.prefix| + |p.str|;
            var n := if p.width > whole then p.width - whole else 0;
            && Expand(p) == (if p.left then p.prefix + Body(p) + Repeat(if p.zero then '0' else ' ', n)
                             else if p.zero then p.prefix + Repeat('0', n) + Body(p)
                             else Repeat(' ', n) + p.prefix + Body(p))
            && (!Cut(p) ==> |Expand(p)| == whole + n)
  {
    assert Fill(p) <= 0 ==> Repeat(Filler(p), Fill(p)) == [];
  }

  function ExpandAll(ps: seq<Piece>): string {
    if ps == [] then [] else Expand(ps[0]) + ExpandAll(ps[1..])
  }

  /** Some cut string is the last thing that is printed. */
  predicate EndsCut(ps: seq<Piece>) {
    ps != [] && ((Cut(ps[0]) && After(ps[0]) == [] && ExpandAll(ps[1..]) == []) || EndsCut(ps[1..]))
  }

  class Writer {
    const buf: array<char>
    const max: nat
    var s: nat

    constructor (b: array<char>, m: nat)
      requires m <= b.Length
      ensures buf == b && max == m && s == 0
    {
      buf, max, s := b, m, 0;
    }

    ghost predicate Valid()
      reads this
    {
      s <= max <= buf.Length
    }

    /** Writes `text` until the bound is reached. */
    method Put(text: string) returns (ok: bool)
      requires Valid()
      modifies `s, buf
      ensures Valid() && Over(old(buf[..]), buf[..], old(s), s, text)
      ensures ok <==> old(s) + |text| <= max
      ensures ok ==> s == old(s) + |text|
      ensures !ok ==> s == max
    {
      hide Over;
      ghost var was := buf[..];
      OverStart(was, s, text);
      var i := 0;
      while i < |text|
        invariant 0 <= i <= |text| && Valid() && s == old(s) + i && Over(was, buf[..], old(s), s, text)
      {
        if s >= max {
          return false;
        }
        OverOne(was, buf[..], old(s), s, text);
        PutChar(text[i]);
        i := i + 1;
      }
      ok := true;
    }

    method PutChar(c: char)
      requires Valid() && s < max
      modifies `s, buf
      ensures Valid() && s == old(s) + 1 && buf[..] == old(buf[..])[old(s) := c]
    {
      buf[s] := c;
      s := s + 1;
    }

    /** Writes a string; the bound is tested before the precision. */
    method PutString(str: string, isString: bool, precision: int) returns (ok: bool)
      requires Valid()
      modifies `s, buf
      ensures var cut := isString && 0 <= precision < |str|;
              var text := if cut then str[..precision] else str;
              && Valid() && Over(old(buf[..]), buf[..], old(s), s, text)
              && (ok <==> (if cut then old(s) + |text| < max else old(s) + |text| <= max))
              && (ok ==> s == old(s) + |text|)
              && (!ok ==> s == max)
    {
      hide Over;
      ghost var was := buf[..];
      ghost var cut := isString && 0 <= precision < |str|;
      ghost var text := if cut then str[..precision] else str;
      var i, decimal := 0, precision;
      OverStart(was, s, text);
      while i < |str|
        invariant 0 <= i <= |text| && Valid() && s == old(s) + i && decimal == precision - i
        invariant Over(was, buf[..], old(s), s, text)
      {
        if s >= max {
          return false;
        }
        if isString && decimal == 0 {
          break;
        }
        decimal := decimal - 1;
        OverOne(was, buf[..], old(s), s, text);
        PutChar(str[i]);
        i := i + 1;
      }
      ok := true;
    }

    /** Writes one piece. */
    method PutPiece(p: Piece) returns (ok: bool)
      requires Valid()
      modifies `s, buf
      ensures Valid() && Over(old(buf[..]), buf[..], old(s), s, Expand(p))
      ensures ok <==> Written(p, old(s), max)
      ensures ok ==> s == old(s) + |Expand(p)|
      ensures !ok ==> s == max
    {
      if p.Literal? {
        ok := Put(p.text);
      } else {
        ok := PutConversion(p);
      }
    }

    method PutConversion(p: Piece) returns (ok: bool)
      requires Valid() && p.Conversion?
      modifies `s, buf
      ensures Valid() && Over(old(buf[..]), buf[..], old(s), s, Expand(p))
      ensures ok <==> Written(p, old(s), max)
      ensures ok ==> s == old(s) + |Expand(p)|
      ensures !ok ==> s == max
    {
      hide Over, Expand, Written, Before, Body, After, Repeat, Cut;
      ghost var was, at := buf[..], s;
      ghost var x, y, z := Before(p), Body(p), After(p);
      PieceLength(p, at, max);
      ok := PutBefore(p);
      ghost var mid, m := buf[..], s;
      Longer(was, mid, at, m, x, y + z);
      if !ok { return; }
      ok := PutBody(p);
      ghost var end, e := buf[..], s;
      Longer(mid, end, m, e, y, z);
      Continued(was, mid, end, at, m, e, x, y + z);
      if !ok { return; }
      if p.left {
        ok := PutAfter(p);
        Continued(mid, end, buf[..], m, e, s, y, z);
        Continued(was, mid, buf[..], at, m, s, x, y + z);
      }
    }

    method PutBody(p: Piece) returns (ok: bool)
      requires Valid() && p.Conversion?
      modifies `s, buf
      ensures Valid() && Over(old(buf[..]), buf[..], old(s), s, Body(p))
      ensures ok <==> if Cut(p) then old(s) + |Body(p)| < max else old(s) + |Body(p)| <= max
      ensures ok ==> s == old(s) + |Body(p)|
      ensures !ok ==> s == max
    {
      ok := PutString(p.str, p.isString, p.precision);
    }

    method PutAfter(p: Piece) returns (ok: bool)
      requires Valid() && p.Conversion? && p.left
      modifies `s, buf
      ensures Valid() && Over(old(buf[..]), buf[..], old(s), s, After(p))
      ensures ok <==> old(s) + |After(p)| <= max
      ensures ok ==> s == old(s) + |After(p)|
      ensures !ok ==> s == max
    {
      ok := Put(Repeat(Filler(p), Fill(p)));
    }

    /** Prefix and fill in the order that the filler asks for. */
    method PutBefore(p: Piece) returns (ok: bool)
      requires Valid() && p.Conversion?
      modifies `s, buf
      ensures Valid() && Over(old(buf[..]), buf[..], old(s), s, Before(p))
      ensures ok <==> old(s) + |Before(p)| <= max
      ensures ok ==> s == old(s) + |Before(p)|
      ensures !ok ==> s == max
    {
      hide Over, Repeat;
      ghost var was, at := buf[..], s;
      var fill := if p.left then [] else Repeat(Filler(p), Fill(p));
      var first, second := if p.zero then p.prefix else fill, if p.zero then fill else p.prefix;
      assert Before(p) == first + second;
      ok := Put(first);
      ghost var mid, m := buf[..], s;
      Longer(was, mid, at, m, first, second);
      if !ok { return; }
      ok := Put(second);
      Continued(was, mid, buf[..], at, m, s, first, second);
    }

    /**
     Prints the pieces.  Nothing is written past the bound; if the whole text is shorter it is
     printed and NUL-terminated and its length returned; if it is longer its first `max`
     characters are printed and -1 is returned.  A text of exactly `max` characters is printed
     in full without a NUL, and its length returned unless it ends in a cut string.
     */
    method Print(ps: seq<Piece>) returns (r: int)
      requires Valid() && s == 0
      modifies `s, buf
      ensures var text, was := ExpandAll(ps), old(buf[..]);
              && (r == -1 <==> max == 0 || |text| > max || (|text| == max && EndsCut(ps)))
              && (r != -1 ==> r == |text|)
              && (max == 0 ==> buf[..] == was)
              && (0 < max <= |text| ==> buf[..] == text[..max] + was[max..])
              && (|text| < max ==> buf[..] == text + [NUL] + was[|text| + 1..])
    {
      hide Over, ExpandAll, EndsCut, Fails;
      FailsWhen(ps, 0, max);
      if max == 0 {
        return -1;
      }
      ghost var was := buf[..];
      var ok := PutPieces(ps);
      OverAll(was, buf[..], s, ExpandAll(ps));
      if !ok {
        return -1;
      }
      assert ExpandAll(ps)[..s] == ExpandAll(ps);
      if s < max {
        buf[s] := NUL;
      }
      r := s;
    }

    /** Writes the pieces one after the other until one does not fit. */
    method PutPieces(ps: seq<Piece>) returns (ok: bool)
      requires Valid()
      modifies `s, buf
      ensures Valid() && Over(old(buf[..]), buf[..], old(s), s, ExpandAll(ps))
      ensures ok <==> !Fails(ps, old(s), max)
      ensures ok ==> s == old(s) + |ExpandAll(ps)|
      ensures !ok ==> s == max
    {
      hide Over, Expand, ExpandAll, Written, Fails;
      ghost var was, at, done := buf[..], s, "";
      OverStart(was, at, "");
      FailsTail(ps, s, s, max);
      var i := 0;
      while i < |ps|
        invariant 0 <= i <= |ps| && Valid() && s == at + |done| && Over(was, buf[..], at, s, done)
        invariant ExpandAll(ps) == done + ExpandAll(ps[i..])
        invariant Fails(ps, at, max) <==> Fails(ps[i..], s, max)
      {
        ghost var e, before, m := Expand(ps[i]), buf[..], s;
        Unfold(ps, i, s, max);
        ok := PutPiece(ps[i]);
        Continued(was, before, buf[..], at, m, s, done, e);
        Regroup(done, e, ExpandAll(ps[i + 1..]));
        if !ok {
          Longer(was, buf[..], at, s, done + e, ExpandAll(ps[i + 1..]));
          return;
        }
        done := done + e;
        i := i + 1;
      }
      FailsTail(ps[i..], s, s, max);
      NothingMore(ps[i..]);
      assert done + [] == done;
      ok := true;
    }
  }

  /** `b` is `a` with `text` written from `at` up to `s`. */
  predicate Over(a: seq<char>, b: seq<char>, at: nat, s: nat, text: string) {
    at <= s <= |a| && s - at <= |text| && b == a[..at] + text[..s - at] + a[s..]
  }

  lemma OverStart(a: seq<char>, s: nat, text: string)
    requires s <= |a|
    ensures Over(a, a, s, s, text)
  {
  }

  lemma OverOne(a: seq<char>, b: seq<char>, at: nat, s: nat, text: string)
    requires Over(a, b, at, s, text) && s - at < |text| && s < |a| == |b|
    ensures Over(a, b[s := text[s - at]], at, s + 1, text)
  {
    assert text[..s - at + 1] == text[..s - at] + [text[s - at]];
  }

  lemma PieceLength(p: Piece, at: nat, max: nat)
    requires p.Conversion?
    ensures Expand(p) == Before(p) + (Body(p) + After(p)) && (!p.left ==> After(p) == [])
    ensures Written(p, at, max) <==>
              && at + |Before(p)| + |Body(p)| + |After(p)| <= max
              && (Cut(p) ==> at + |Before(p)| + |Body(p)| < max)
  {
    hide Before, Body, Repeat;
    assert Expand(p) == Before(p) + (Body(p) + After(p));
  }

  lemma Longer(a: seq<char>, b: seq<char>, at: nat, s: nat, x: string, y: string)
    requires Over(a, b, at, s, x)
    ensures Over(a, b, at, s, x + y)
  {
    assert (x + y)[..s - at] == x[..s - at];
  }

  lemma Continued(a: seq<char>, b: seq<char>, c: seq<char>, at: nat, m: nat, s: nat, x: string, y: string)
    requires Over(a, b, at, m, x) && m == at + |x| && Over(b, c, m, s, y)
    ensures Over(a, c, at, s, x + y)
  {
    assert (x + y)[..s - at] == x + y[..s - m];
    assert b[..m] == a[..at] + x;
    assert b[s..] == a[s..];
  }

  /** Piece `p`, starting at `at`, is written in full before the bound is met. */
  predicate Written(p: Piece, at: nat, max: nat) {
    if Cut(p) && After(p) == [] then at + |Expand(p)| < max else at + |Expand(p)| <= max
  }

  predicate Fails(ps: seq<Piece>, at: nat, max: nat)
    decreases |ps|
  {
    ps != [] && (!Written(ps[0], at, max) || Fails(ps[1..], at + |Expand(ps[0])|, max))
  }

  /** Writing fails exactly if the expansion is too long, or fills the buffer and ends in a cut string. */
  lemma {:induction false} FailsWhen(ps: seq<Piece>, at: nat, max: nat)
    requires at <= max
    ensures Fails(ps, at, max) <==> at + |ExpandAll(ps)| > max || (at + |ExpandAll(ps)| == max && EndsCut(ps))
    decreases |ps|
  {
    hide Expand, After, Cut;
    if ps != [] && Written(ps[0], at, max) {
      FailsWhen(ps[1..], at + |Expand(ps[0])|, max);
    }
  }

  lemma FailsTail(ps: seq<Piece>, at: nat, next: nat, max: nat)
    ensures ps == [] ==> !Fails(ps, at, max)
    ensures ps != [] && next == at + |Expand(ps[0])| ==>
              (Fails(ps, at, max) <==> !Written(ps[0], at, max) || Fails(ps[1..], next, max))
    ensures ps != [] ==> ExpandAll(ps) == Expand(ps[0]) + ExpandAll(ps[1..])
    ensures ps[0..] == ps
  {
  }

  lemma Unfold(ps: seq<Piece>, i: nat, at: nat, max: nat)
    requires i < |ps|
    ensures ExpandAll(ps[i..]) == Expand(ps[i]) + ExpandAll(ps[i + 1..])
    ensures Fails(ps[i..], at, max) <==> !Written(ps[i], at, max) || Fails(ps[i + 1..], at + |Expand(ps[i])|, max)
  {
    assert ps[i..][0] == ps[i] && ps[i..][1..] == ps[i + 1..];
  }

  lemma Regroup(x: string, y: string, z: string)
    ensures x + (y + z) == (x + y) + z
  {
  }

  lemma NothingMore(ps: seq<Piece>)
    ensures ps == [] ==> ExpandAll(ps) == []
  {
  }

  lemma OverAll(a: seq<char>, b: seq<char>, s: nat, text: string)
    requires Over(a, b, 0, s, text)
    ensures s <= |a| && s <= |text| && b == text[..s] + a[s..]
  {
  }

  /** A cut string that fills the buffer exactly is printed in full, yet reported as too long. */
  method CutFills() returns (r: int, printed: string)
    ensures r == -1 && printed == "abc"
  {
    var b := new char[3];
    var w := new Writer(b, 3);
    var p := Conversion("", 0, false, false, "abcd", true, 3);
    assert Body(p) == "abc" && Expand(p) == "abc";
    assert ExpandAll([p]) == "abc";
    r := w.Print([p]);
    printed := b[..];
  }
}
