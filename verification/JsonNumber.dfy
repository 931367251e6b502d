/** JSON numbers as text (section 6 of RFC 8259): the states of a scanner that reads one, and the value read. */
module JsonNumber {
  datatype State = Start | Minus | Zero | Integer | Point | Fraction | Exponent | ExponentSign | ExponentDigits | Bad

  /** The scanner after some characters, with what it has read: value == +-digits * 10 ^ (+-exponent - places). */
  datatype Scan = Scan(state: State, negative: bool, digits: nat, places: nat, downward: bool, exponent: nat)

  predicate IsDigit(c: char) {
    '0' <= c <= '9'
  }

  function Digit(c: char): nat
    requires IsDigit(c)
  {
    c as int - '0' as int
  }

  function Step(s: Scan, c: char): Scan {
    match s.state
    case Start =>
      if c == '-' then s.(state := Minus, negative := true) else First(s, c)
    case Minus => First(s, c)
    case Zero => AfterInteger(s, c)
    case Integer =>
      if IsDigit(c) then s.(digits := s.digits * 10 + Digit(c)) else AfterInteger(s, c)
    case Point =>
      if IsDigit(c) then FractionDigit(s, c) else s.(state := Bad)
    case Fraction =>
      if IsDigit(c) then FractionDigit(s, c)
      else if c == 'e' || c == 'E' then s.(state := Exponent)
      else s.(state := Bad)
    case Exponent =>
      if c == '+' || c == '-' then s.(state := ExponentSign, downward := c == '-') else ExponentDigit(s, c)
    case ExponentSign => ExponentDigit(s, c)
    case ExponentDigits => ExponentDigit(s, c)
    case Bad => s
  }

  function First(s: Scan, c: char): Scan {
    if !IsDigit(c) then s.(state := Bad)
    else s.(state := if c == '0' then Zero else Integer, digits := Digit(c))
  }

  function AfterInteger(s: Scan, c: char): Scan {
    s.(state := if c == '.' then Point else if c == 'e' || c == 'E' then Exponent else Bad)
  }

  function FractionDigit(s: Scan, c: char): Scan
    requires IsDigit(c)
  {
    s.(state := Fraction, digits := s.digits * 10 + Digit(c), places := s.places + 1)
  }

  function ExponentDigit(s: Scan, c: char): Scan {
    if !IsDigit(c) then s.(state := Bad)
    else s.(state := ExponentDigits, exponent := s.exponent * 10 + Digit(c))
  }

  function Read(text: string): Scan {
    if text == "" then Scan(Start, false, 0, 0, false, 0)
    else Step(Read(text[..|text| - 1]), text[|text| - 1])
  }

  /** The text is a complete number. */
  predicate IsNumber(text: string) {
    Read(text).state in {Zero, Integer, Fraction, ExponentDigits}
  }

  function Pow10(n: int): real
    decreases if n < 0 then -n else n
  {
    if n == 0 then 1.0 else if n > 0 then 10.0 * Pow10(n - 1) else Pow10(n + 1) / 10.0
  }

  function Value(text: string): real {
    var s := Read(text);
    var exponent: int := s.exponent;
    var size := s.digits as real * Pow10((if s.downward then -exponent else exponent) - s.places);
    if s.negative then -size else size
  }

  lemma ReadMore(text: string, c: char)
    ensures Read(text + [c]) == Step(Read(text), c)
  {
    assert (text + [c])[..|text|] == text;
  }

  lemma NumberNotEmpty(text: string)
    requires IsNumber(text)
    ensures text != ""
  {}

  // ----- What the scanner makes of a text

  predicate AllDigits(s: string) {
    forall i :: 0 <= i < |s| ==> '0' <= s[i] <= '9'
  }

  /** The number that a string of digits stands for. */
  function Natural(s: string): nat
    requires AllDigits(s)
  {
    if s == "" then 0
    else
      var n := |s| - 1;
      10 * Natural(s[..n]) + (s[n] as int - '0' as int)
  }

  /** The parts of a number's text, as far as it goes. */
  datatype Parts = Parts(minus: bool, whole: string, point: bool, fraction: string, e: string, sign: string,
                         exponent: string)

  function Front(p: Parts): string {
    (if p.minus then "-" else "") + p.whole
  }

  function Middle(p: Parts): string {
    (if p.point then "." else "") + p.fraction
  }

  function Back(p: Parts): string {
    p.e + p.sign + p.exponent
  }

  function Spelled(p: Parts): string {
    Front(p) + Middle(p) + Back(p)
  }

  /** Digits without a leading zero, unless they are a single 0; after a point digits; after an e, of either size, a
      sign or none, and digits. */
  predicate IsPrefix(p: Parts) {
    && AllDigits(p.whole) && (p.whole != "" && p.whole[0] == '0' ==> p.whole == "0")
    && AllDigits(p.fraction) && (p.fraction != "" ==> p.point)
    && p.e in {"", "e", "E"} && p.sign in {"", "+", "-"} && AllDigits(p.exponent)
    && (p.point || p.e != "" ==> p.whole != "")
    && (p.e != "" && p.point ==> p.fraction != "")
    && (p.sign != "" || p.exponent != "" ==> p.e != "")
  }

  predicate IsWhole(p: Parts) {
    p.whole != "" && (p.point ==> p.fraction != "") && (p.e != "" ==> p.exponent != "")
  }

  function StateOf(p: Parts): State {
    if p.exponent != "" then ExponentDigits
    else if p.sign != "" then ExponentSign
    else if p.e != "" then Exponent
    else if p.fraction != "" then Fraction
    else if p.point then Point
    else if p.whole == "0" then Zero
    else if p.whole != "" then Integer
    else if p.minus then Minus
    else Start
  }

  lemma DigitsJoin(a: string, b: string)
    requires AllDigits(a) && AllDigits(b)
    ensures AllDigits(a + b)
  {}

  function ScanOf(p: Parts): Scan
    requires IsPrefix(p)
  {
    DigitsJoin(p.whole, p.fraction);
    Scan(StateOf(p), p.minus, Natural(p.whole + p.fraction), |p.fraction|, p.sign == "-", Natural(p.exponent))
  }

  lemma NaturalMore(s: string, c: char)
    requires AllDigits(s) && IsDigit(c)
    ensures AllDigits(s + [c]) && Natural(s + [c]) == 10 * Natural(s) + Digit(c)
  {
    assert (s + [c])[..|s|] == s;
  }

  /** The parts of a text and of the text with one more character, which the scanner accepts. */
  ghost predicate Follows(p: Parts, c: char, q: Parts) {
    IsPrefix(p) && IsPrefix(q) && Spelled(q) == Spelled(p) + [c] && ScanOf(q) == Step(ScanOf(p), c)
  }

  lemma AtEnd(front: string, middle: string, back: string, c: char)
    ensures front + middle + (back + [c]) == front + middle + back + [c]
    ensures back == "" ==> front + (middle + [c]) + back == front + middle + back + [c]
    ensures middle == back == "" ==> front + [c] + middle + back == front + middle + back + [c]
  {}

  lemma MinusFollows(p: Parts)
    requires IsPrefix(p) && StateOf(p) == Start
    ensures Follows(p, '-', p.(minus := true))
  {}

  lemma WholeFollows(p: Parts, c: char)
    requires IsPrefix(p) && StateOf(p) in {Start, Minus, Integer} && IsDigit(c)
    ensures Follows(p, c, p.(whole := p.whole + [c]))
  {
    hide Spelled, ScanOf;
    WholeSpelled(p, c);
    WholeScanned(p, c);
  }

  lemma WholeSpelled(p: Parts, c: char)
    requires p.point == false && p.fraction == p.e == p.sign == p.exponent == ""
    ensures Spelled(p.(whole := p.whole + [c])) == Spelled(p) + [c]
  {
    var q := p.(whole := p.whole + [c]);
    assert Middle(p) == Back(p) == "" && Front(q) == Front(p) + [c];
    AtEnd(Front(p), "", "", c);
  }

  lemma WholeBegins(p: Parts, c: char)
    requires IsPrefix(p) && StateOf(p) in {Start, Minus} && IsDigit(c)
    ensures var q := p.(whole := [c]); IsPrefix(q) && ScanOf(q) == Step(ScanOf(p), c)
  {
    hide Natural;
    NothingIsZero();
    NaturalMore("", c);
    assert "" + [c] == [c] && [c] + "" == [c];
  }

  lemma WholeGoesOn(p: Parts, c: char)
    requires IsPrefix(p) && StateOf(p) == Integer && IsDigit(c)
    ensures var q := p.(whole := p.whole + [c]); IsPrefix(q) && ScanOf(q) == Step(ScanOf(p), c)
  {
    hide Natural;
    NaturalMore(p.whole, c);
    assert (p.whole + [c])[0] == p.whole[0];
    assert p.whole + "" == p.whole && p.whole + [c] + "" == p.whole + [c];
  }

  lemma WholeScanned(p: Parts, c: char)
    requires IsPrefix(p) && StateOf(p) in {Start, Minus, Integer} && IsDigit(c)
    ensures var q := p.(whole := p.whole + [c]); IsPrefix(q) && ScanOf(q) == Step(ScanOf(p), c)
  {
    hide IsPrefix, ScanOf, Step;
    if StateOf(p) == Integer {
      WholeGoesOn(p, c);
    } else {
      assert p.whole + [c] == [c];
      WholeBegins(p, c);
    }
  }

  lemma NothingIsZero()
    ensures Natural("") == 0
  {}

  lemma PointFollows(p: Parts)
    requires IsPrefix(p) && StateOf(p) in {Zero, Integer}
    ensures Follows(p, '.', p.(point := true))
  {
    var q := p.(point := true);
    assert Middle(p) == Back(p) == "" && Middle(q) == Middle(p) + ['.'];
    AtEnd(Front(p), "", "", '.');
  }

  lemma FractionFollows(p: Parts, c: char)
    requires IsPrefix(p) && StateOf(p) in {Point, Fraction} && IsDigit(c)
    ensures Follows(p, c, p.(fraction := p.fraction + [c]))
  {
    hide Spelled, ScanOf;
    FractionSpelled(p, c);
    FractionScanned(p, c);
  }

  lemma FractionSpelled(p: Parts, c: char)
    requires p.e == p.sign == p.exponent == ""
    ensures Spelled(p.(fraction := p.fraction + [c])) == Spelled(p) + [c]
  {
    var q := p.(fraction := p.fraction + [c]);
    assert Back(p) == "" && Middle(q) == Middle(p) + [c];
    AtEnd(Front(p), Middle(p), "", c);
  }

  lemma FractionScanned(p: Parts, c: char)
    requires IsPrefix(p) && StateOf(p) in {Point, Fraction} && IsDigit(c)
    ensures var q := p.(fraction := p.fraction + [c]); IsPrefix(q) && ScanOf(q) == Step(ScanOf(p), c)
  {
    hide Natural;
    DigitsJoin(p.whole, p.fraction);
    NaturalMore(p.whole + p.fraction, c);
    NaturalMore(p.fraction, c);
    assert p.whole + (p.fraction + [c]) == p.whole + p.fraction + [c];
  }

  lemma EFollows(p: Parts, c: char)
    requires IsPrefix(p) && StateOf(p) in {Zero, Integer, Fraction} && (c == 'e' || c == 'E')
    ensures Follows(p, c, p.(e := [c]))
  {
    var q := p.(e := [c]);
    assert Back(p) == "" && Back(q) == Back(p) + [c];
    AtEnd(Front(p), Middle(p), "", c);
  }

  lemma SignFollows(p: Parts, c: char)
    requires IsPrefix(p) && StateOf(p) == Exponent && (c == '+' || c == '-')
    ensures Follows(p, c, p.(sign := [c]))
  {
    var q := p.(sign := [c]);
    assert [c] == "-" <==> c == '-';
    assert Back(q) == Back(p) + [c];
    AtEnd(Front(p), Middle(p), Back(p), c);
  }

  lemma ExponentFollows(p: Parts, c: char)
    requires IsPrefix(p) && StateOf(p) in {Exponent, ExponentSign, ExponentDigits} && IsDigit(c)
    ensures Follows(p, c, p.(exponent := p.exponent + [c]))
  {
    hide Spelled, ScanOf;
    ExponentSpelled(p, c);
    ExponentScanned(p, c);
  }

  lemma ExponentSpelled(p: Parts, c: char)
    ensures Spelled(p.(exponent := p.exponent + [c])) == Spelled(p) + [c]
  {
    var q := p.(exponent := p.exponent + [c]);
    assert Back(q) == Back(p) + [c];
    AtEnd(Front(p), Middle(p), Back(p), c);
  }

  lemma ExponentScanned(p: Parts, c: char)
    requires IsPrefix(p) && StateOf(p) in {Exponent, ExponentSign, ExponentDigits} && IsDigit(c)
    ensures var q := p.(exponent := p.exponent + [c]); IsPrefix(q) && ScanOf(q) == Step(ScanOf(p), c)
  {
    hide Natural;
    NaturalMore(p.exponent, c);
  }

  /** Any character that the scanner accepts belongs to a part. */
  lemma AcceptedFollows(p: Parts, c: char) returns (q: Parts)
    requires IsPrefix(p) && Step(ScanOf(p), c).state != Bad
    ensures Follows(p, c, q)
  {
    hide Follows, IsPrefix, Spelled, Natural;
    if StateOf(p) == Start && c == '-' {
      q := p.(minus := true);
      MinusFollows(p);
    } else if StateOf(p) in {Start, Minus, Integer} && IsDigit(c) {
      q := p.(whole := p.whole + [c]);
      WholeFollows(p, c);
    } else if StateOf(p) in {Zero, Integer} && c == '.' {
      q := p.(point := true);
      PointFollows(p);
    } else if StateOf(p) in {Point, Fraction} {
      if IsDigit(c) {
        q := p.(fraction := p.fraction + [c]);
        FractionFollows(p, c);
      } else {
        q := p.(e := [c]);
        EFollows(p, c);
      }
    } else if StateOf(p) in {Zero, Integer} {
      q := p.(e := [c]);
      EFollows(p, c);
    } else if StateOf(p) == Exponent && !IsDigit(c) {
      q := p.(sign := [c]);
      SignFollows(p, c);
    } else {
      q := p.(exponent := p.exponent + [c]);
      ExponentFollows(p, c);
    }
  }

  lemma NoParts() returns (p: Parts)
    ensures IsPrefix(p) && Spelled(p) == "" && Read("") == ScanOf(p)
  {
    p := Parts(false, "", false, "", "", "", "");
  }

  /** Whatever the scanner has not refused has these parts. */
  lemma {:induction false} ReadMeans(text: string) returns (p: Parts)
    requires Read(text).state != Bad
    ensures IsPrefix(p) && Spelled(p) == text && Read(text) == ScanOf(p)
  {
    if text == "" {
      p := NoParts();
    } else {
      hide IsPrefix, Spelled, ScanOf, Step;
      var n := |text| - 1;
      var before := ReadMeans(text[..n]);
      p := LastFollows(before, text[..n], text[n]);
      assert text == text[..n] + [text[n]];
    }
  }

  lemma LastFollows(before: Parts, text: string, c: char) returns (p: Parts)
    requires IsPrefix(before) && Spelled(before) == text && Step(ScanOf(before), c).state != Bad
    ensures IsPrefix(p) && Spelled(p) == text + [c] && ScanOf(p) == Step(ScanOf(before), c)
  {
    hide IsPrefix, Spelled, ScanOf, Step;
    p := AcceptedFollows(before, c);
  }

  /** The parts without their last character. */
  lemma LastPart(p: Parts) returns (q: Parts, c: char)
    requires IsPrefix(p) && p != Parts(false, "", false, "", "", "", "")
    ensures Follows(q, c, p)
  {
    hide Follows, Spelled, ScanOf;
    if p.exponent != "" {
      var n := |p.exponent| - 1;
      q, c := p.(exponent := p.exponent[..n]), p.exponent[n];
      assert p.exponent == q.exponent + [c];
      ExponentFollows(q, c);
    } else if p.sign != "" {
      q, c := p.(sign := ""), p.sign[0];
      SignFollows(q, c);
    } else if p.e != "" {
      q, c := p.(e := ""), p.e[0];
      EFollows(q, c);
    } else if p.fraction != "" {
      var n := |p.fraction| - 1;
      q, c := p.(fraction := p.fraction[..n]), p.fraction[n];
      assert p.fraction == q.fraction + [c];
      FractionFollows(q, c);
    } else if p.point {
      q, c := p.(point := false), '.';
      PointFollows(q);
    } else if p.whole != "" {
      var n := |p.whole| - 1;
      q, c := p.(whole := p.whole[..n]), p.whole[n];
      assert p.whole == q.whole + [c];
      WholeFollows(q, c);
    } else {
      q, c := p.(minus := false), '-';
      MinusFollows(q);
    }
  }

  /** And a text with such parts is read as them. */
  lemma {:induction false} SpelledIsRead(p: Parts)
    requires IsPrefix(p)
    ensures Read(Spelled(p)) == ScanOf(p)
    decreases |Spelled(p)|
  {
    if p != Parts(false, "", false, "", "", "", "") {
      hide IsPrefix, ScanOf, Step, Read, Spelled;
      var q, c := LastPart(p);
      SpelledIsRead(q);
      ReadMore(Spelled(q), c);
    }
  }

  /** Exactly the texts made of such parts, complete, are numbers; and a number's value is that of its digits, moved by
      its exponent and the length of its fraction. */
  lemma NumbersExactly(text: string)
    ensures IsNumber(text) <==> exists p :: IsPrefix(p) && IsWhole(p) && Spelled(p) == text
  {
    if IsNumber(text) {
      var p := ReadMeans(text);
      assert IsPrefix(p) && IsWhole(p) && Spelled(p) == text;
    }
    if p :| IsPrefix(p) && IsWhole(p) && Spelled(p) == text {
      SpelledIsRead(p);
    }
  }

  lemma ValueOfParts(p: Parts)
    requires IsPrefix(p) && IsWhole(p)
    ensures AllDigits(p.whole + p.fraction)
    ensures var power := (if p.sign == "-" then -1 else 1) * Natural(p.exponent) - |p.fraction|;
      var size := Natural(p.whole + p.fraction) as real * Pow10(power);
      Value(Spelled(p)) == if p.minus then -size else size
  {
    hide Natural, Pow10, Spelled, Read, StateOf, Step;
    SpelledIsRead(p);
    DigitsJoin(p.whole, p.fraction);
  }

  lemma {:induction false} Pow10Means(n: int)
    ensures Pow10(0) == 1.0 && Pow10(n + 1) == 10.0 * Pow10(n)
  {
    if n < 0 {
      assert Pow10(n) == Pow10(n + 1) / 10.0;
    }
  }

  /** The scanner after the digits of a whole number. */
  function Whole(n: nat): Scan {
    Scan(Integer, false, n, 0, false, 0)
  }

  lemma WholeValue(text: string, n: nat)
    requires Read(text) == Whole(n)
    ensures IsNumber(text) && Value(text) == n as real
  {
    assert Pow10(0) == 1.0;
  }

  lemma NextDigit(text: string, n: nat, c: char)
    requires Read(text) == Whole(n) && IsDigit(c)
    ensures Read(text + [c]) == Whole(n * 10 + Digit(c))
  {
    ReadMore(text, c);
  }

  /** Cutting a number off can leave a number: 1500 and 15 are both complete. */
  lemma FifteenHundred()
    ensures IsNumber("15") && Value("15") == 15.0 && IsNumber("1500") && Value("1500") == 1500.0
  {
    ReadMore("", '1');
    assert "" + ['1'] == "1" && "1" + ['5'] == "15" && "15" + ['0'] == "150" && "150" + ['0'] == "1500";
    assert Read("1") == Whole(1);
    NextDigit("1", 1, '5');
    NextDigit("15", 15, '0');
    NextDigit("150", 150, '0');
    WholeValue("15", 15);
    WholeValue("1500", 1500);
  }

  /** A capture delay of half a second. */
  lemma Half()
    ensures IsNumber("0.5") && Value("0.5") == 0.5
  {
    var p := Parts(false, "0", true, "5", "", "", "");
    assert Front(p) == "0" && Middle(p) == ".5" && Back(p) == "" && Spelled(p) == "0.5";
    SpelledIsRead(p);
    ValueOfParts(p);
    assert p.whole + p.fraction == "05";
    assert "05"[..1] == "0" && "0"[..0] == "";
    assert Natural("05") == 5;
    Pow10Means(-1);
  }
}
