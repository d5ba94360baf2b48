/** What a number is written as, stated without the parser: digits of an alphabet, and what they are worth. */
module Numerals {
  import opened Wrappers
  import opened ByteText

  const UPPER_DIGITS: Bytes := "0123456789ABCDEF"
  const LOWER_DIGITS: Bytes := "0123456789abcdef"

  /** A digit, as it is written. */
  datatype Glyph = Glyph(digit: nat, upper: bool)

  predicate Glyphs(gs: seq<Glyph>, base: nat) {
    gs != [] && forall g | g in gs :: g.digit < base
  }

  function Written(g: Glyph): char
    requires g.digit < 16
  {
    if g.upper then UPPER_DIGITS[g.digit] else LOWER_DIGITS[g.digit]
  }

  function Spell(gs: seq<Glyph>): (s: Bytes)
    requires forall g | g in gs :: g.digit < 16
    ensures |s| == |gs| && forall i | 0 <= i < |s| :: s[i] == Written(gs[i])
  {
    if gs == [] then "" else [Written(gs[0])] + Spell(gs[1..])
  }

  function Power(base: nat, n: nat): nat {
    if n == 0 then 1 else base * Power(base, n - 1)
  }

  /** Each digit counts as often as its place says. */
  function Worth(gs: seq<Glyph>, base: nat): nat {
    if gs == [] then 0 else gs[0].digit * Power(base, |gs| - 1) + Worth(gs[1..], base)
  }

  lemma WrittenDigit(g: Glyph)
    requires g.digit < 16
    ensures Digit(Written(g), 16) == Some(g.digit)
    ensures g.digit < 10 ==> Digit(Written(g), 10) == Some(g.digit)
    ensures Written(g) != '+'
  {
  }

  lemma DigitIsWritten(c: char, base: Base) returns (g: Glyph)
    requires Digit(c, base).Some?
    ensures g.digit < base && Written(g) == c
  {
    g := Glyph(Digit(c, base).value, 'A' <= c <= 'F');
    WrittenAt(g.digit);
  }

  lemma WrittenAt(d: nat)
    requires d < 16
    ensures UPPER_DIGITS[d] as int == if d < 10 then '0' as int + d else 'A' as int + d - 10
    ensures LOWER_DIGITS[d] as int == if d < 10 then '0' as int + d else 'a' as int + d - 10
  {
  }

  lemma {:induction false} WorthOfMore(gs: seq<Glyph>, g: Glyph, base: nat)
    ensures Worth(gs + [g], base) == Worth(gs, base) * base + g.digit
  {
    if gs == [] {
      assert gs + [g] == [g];
      assert Power(base, 0) == 1;
    } else {
      assert (gs + [g])[1..] == gs[1..] + [g];
      WorthOfMore(gs[1..], g, base);
      Shift(gs[0].digit, base, Power(base, |gs| - 1), Worth(gs[1..], base));
    }
  }

  lemma Shift(d: nat, base: nat, power: nat, rest: nat)
    ensures d * (base * power) + rest * base == (d * power + rest) * base
  {
  }

  lemma {:induction false} SpelledValue(gs: seq<Glyph>, base: Base)
    requires forall g | g in gs :: g.digit < base
    ensures forall i | 0 <= i < |gs| :: Digit(Spell(gs)[i], base).Some?
    ensures Value(Spell(gs), base) == Worth(gs, base)
    decreases |gs|
  {
    hide Digit, Written;
    forall i | 0 <= i < |gs| ensures Digit(Spell(gs)[i], base) == Some(gs[i].digit) {
      WrittenDigit(gs[i]);
    }
    if gs != [] {
      var k := |gs| - 1;
      assert gs == gs[..k] + [gs[k]];
      assert Spell(gs)[..k] == Spell(gs[..k]);
      SpelledValue(gs[..k], base);
      WorthOfMore(gs[..k], gs[k], base);
    }
  }

  function Sign(plus: bool): Bytes {
    if plus then "+" else ""
  }

  lemma SpelledIsRead(plus: bool, gs: seq<Glyph>, base: Base, max: nat)
    requires Glyphs(gs, base)
    ensures ParseNat(Sign(plus) + Spell(gs), base, max)
      == if Worth(gs, base) <= max then Some(Worth(gs, base)) else None
  {
    SpelledValue(gs, base);
    assert gs[0] in gs;
    WrittenDigit(gs[0]);
    hide Digit, Written, Value, Worth;
    var s := Sign(plus) + Spell(gs);
    assert (if s[0] == '+' then s[1..] else s) == Spell(gs);
  }

  lemma {:induction false} DigitsAreSpelled(s: Bytes, base: Base) returns (gs: seq<Glyph>)
    requires forall i | 0 <= i < |s| :: Digit(s[i], base).Some?
    ensures (forall g | g in gs :: g.digit < base) && s == Spell(gs)
  {
    hide Digit, Written;
    if s == "" {
      gs := [];
    } else {
      var g := DigitIsWritten(s[0], base);
      var rest := DigitsAreSpelled(s[1..], base);
      gs := [g] + rest;
      assert gs[1..] == rest;
      assert s == [s[0]] + s[1..];
    }
  }

  /** The text is an optional plus and digits, of either letter case, worth `n`. */
  ghost predicate Spells(s: Bytes, base: nat, n: nat) {
    exists plus, gs :: Glyphs(gs, base) && base <= 16 && s == Sign(plus) + Spell(gs) && n == Worth(gs, base)
  }

  lemma NumberIsSpelled(s: Bytes, base: Base, max: nat) returns (plus: bool, gs: seq<Glyph>)
    requires ParseNat(s, base, max).Some?
    ensures Glyphs(gs, base) && s == Sign(plus) + Spell(gs)
    ensures ParseNat(s, base, max) == Some(Worth(gs, base)) && Worth(gs, base) <= max
  {
    plus := s != "" && s[0] == '+';
    var digits := if plus then s[1..] else s;
    hide Digit, Value, Written, Worth;
    gs := DigitsAreSpelled(digits, base);
    SpelledValue(gs, base);
    assert s == Sign(plus) + digits;
  }

  /** Numbers are read exactly as they are written: no other text is one, and none is misread. */
  lemma NumberExactly(s: Bytes, base: Base, max: nat, n: nat)
    ensures ParseNat(s, base, max) == Some(n) <==> Spells(s, base, n) && n <= max
  {
    hide ParseNat, Worth, Spell;
    if Spells(s, base, n) {
      var plus, gs :| Glyphs(gs, base) && base <= 16 && s == Sign(plus) + Spell(gs) && n == Worth(gs, base);
      SpelledIsRead(plus, gs, base, max);
    }
    if ParseNat(s, base, max) == Some(n) {
      var plus, gs := NumberIsSpelled(s, base, max);
    }
  }

  /** Printing writes such a number, without a plus. */
  lemma PrintIsSpelled(n: nat, base: Base) returns (gs: seq<Glyph>)
    ensures Glyphs(gs, base) && Print(n, base) == Spell(gs) && Worth(gs, base) == n
  {
    PrintDigits(n, base);
    gs := DigitsAreSpelled(Print(n, base), base);
    SpelledValue(gs, base);
  }
}
