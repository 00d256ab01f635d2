/** The countdown shown on the game screen (App.game.js, formatTime): whole
    seconds rendered as minutes, a colon and two-digit seconds. */
module Clock {
  import opened Decimal

  datatype Option<T> = None | Some(value: T)

  /** JavaScript's `%` for a positive divisor: the remainder has the sign of the
      dividend (Dafny's own `%` never goes negative), and the dividend minus the
      remainder is a multiple of the divisor, which fixes the value. */
  function JsRem(a: int, b: int): (r: int)
    requires b > 0
    ensures a >= 0 ==> 0 <= r < b && r == a % b
    ensures a < 0 ==> -b < r <= 0
    ensures (a - r) % b == 0
  {
    if a >= 0 then
      assert a - a % b == (a / b) * b;
      RemOfMultiple(a / b, b);
      a % b
    else
      var q, m := (-a) / b, (-a) % b;
      assert a + m == (-q) * b;
      RemOfMultiple(-q, b);
      -m
  }

  lemma MulBounds(k: int, b: int)
    requires b > 0
    ensures k >= 1 ==> k * b >= b
    ensures k <= -1 ==> k * b <= -b
  {
    if k >= 1 {
      assert k * b == (k - 1) * b + b;
    } else if k <= -1 {
      assert k * b == -((-k) * b);
    }
  }

  lemma RemOfMultiple(q: int, b: int)
    requires b > 0
    ensures (q * b) % b == 0
  {
    var x := q * b;
    var k, m := x / b, x % b;
    assert x == k * b + m;
    assert (q - k) * b == m;
    MulBounds(q - k, b);
  }

  /** `s.padStart(n, pad)` with a one-character pad. */
  function PadStart(s: string, n: nat, pad: char): (r: string)
    ensures |r| == if |s| < n then n else |s|
    ensures r[|r| - |s|..] == s
    ensures forall i :: 0 <= i < |r| - |s| ==> r[i] == pad
  {
    if |s| >= n then s else seq(n - |s|, _ => pad) + s
  }

  /** `${Math.floor(seconds / 60)}:${(seconds % 60).toString().padStart(2, '0')}`.
      Dafny's `/` rounds down for a positive divisor, as `Math.floor` does. */
  function FormatTime(seconds: int): string {
    IntToString(seconds / 60) + ":" + PadStart(IntToString(JsRem(seconds, 60)), 2, '0')
  }

  /** Reads a clock face `m:ss` back: digits, a colon, then two digits that
      name fewer than 60 seconds. */
  function ParseClock(t: string): (r: Option<nat>)
    ensures r.Some? ==> |t| >= 4 && t[|t| - 3] == ':'
  {
    if |t| >= 4 && t[|t| - 3] == ':' && AllDigits(t[..|t| - 3]) && AllDigits(t[|t| - 2..])
       && ParseNat(t[|t| - 2..]) < 60
    then Some(ParseNat(t[..|t| - 3]) * 60 + ParseNat(t[|t| - 2..]))
    else None
  }

  /** Seconds below a minute always show as exactly two digits. */
  lemma TwoDigits(r: nat)
    requires r < 60
    ensures PadStart(NatToString(r), 2, '0') == [DigitChar(r / 10), DigitChar(r % 10)]
  {
    if r >= 10 {
      assert NatToString(r) == NatToString(r / 10) + [DigitChar(r % 10)];
    }
  }

  /** A face splits at its colon into the minutes and the two seconds digits. */
  lemma FaceParts(x: string, d: string)
    requires |d| == 2
    ensures var t := x + ":" + d;
      |t| == |x| + 3 && t[..|x|] == x && t[|x|] == ':' && t[|x| + 1..] == d
  {
  }

  lemma ParseTwo(q: nat, u: nat)
    requires q < 10 && u < 10
    ensures ParseNat([DigitChar(q), DigitChar(u)]) == q * 10 + u
  {
    var d := [DigitChar(q), DigitChar(u)];
    assert d[..1] == [DigitChar(q)];
    assert ParseNat([DigitChar(q)]) == q by {
      assert [DigitChar(q)][..0] == [];
    }
    assert ParseNat(d) == ParseNat(d[..1]) * 10 + DigitValue(d[1]);
  }

  /** For a non-negative time the face has the shape `m:ss`: the minutes in
      shortest decimal form, a colon, and the seconds padded to two digits
      (five seconds show as `0:05`, a hundred as `1:40`). */
  lemma FormatTimeShape(s: nat)
    ensures FormatTime(s) ==
      NatToString(s / 60) + ":" + [DigitChar(s % 60 / 10), DigitChar(s % 60 % 10)]
  {
    var m, r := s / 60, s % 60;
    assert IntToString(m) == NatToString(m);
    assert JsRem(s, 60) == r;
    TwoDigits(r);
  }

  /** Reading the face of a non-negative time gives the time back. */
  lemma FormatTimeReadsBack(s: nat)
    ensures ParseClock(FormatTime(s)) == Some(s)
  {
    var m, r := s / 60, s % 60;
    assert m * 60 + r == s;
    FormatTimeShape(s);
    ParseFace(m, r, FormatTime(s));
  }

  lemma ParseFace(m: nat, r: nat, t: string)
    requires r < 60
    requires t == NatToString(m) + ":" + [DigitChar(r / 10), DigitChar(r % 10)]
    ensures ParseClock(t) == Some(m * 60 + r)
  {
    var x := NatToString(m);
    var d := [DigitChar(r / 10), DigitChar(r % 10)];
    FaceParts(x, d);
    ParseTwo(r / 10, r % 10);
    ParseNatToString(m);
    assert t[..|t| - 3] == x;
    assert AllDigits(d);
  }

  /** Two different non-negative times never show the same face. */
  lemma FormatTimeInjective(s: nat, u: nat)
    requires FormatTime(s) == FormatTime(u)
    ensures s == u
  {
    FormatTimeReadsBack(s);
    FormatTimeReadsBack(u);
  }
}
