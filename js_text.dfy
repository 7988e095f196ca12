/** The few JavaScript string and number primitives the wizard page relies on:
    `String.prototype.split` with a one-character separator, `Number(...)` on
    decimal digit strings, `Number.prototype.toString()` on non-negative
    integers and `String.prototype.padStart`. Strings are sequences of UTF-16
    code units, modelled as `seq<char>`. */
module JsText {

  // ---------------------------------------------------------------------------
  // split
  // ---------------------------------------------------------------------------

  /** `s.split(sep)`: the pieces between the occurrences of `sep`, in order.
      There is always at least one piece (`"".split(" ")` is `[""]`), and the
      pieces are exactly one more than the separators. */
  function Split(s: string, sep: char): (parts: seq<string>)
    ensures |parts| >= 1
    decreases |s|
  {
    if s == [] then [[]]
    else
      var rest := Split(s[1..], sep);
      if s[0] == sep then [[]] + rest
      else [[s[0]] + rest[0]] + rest[1..]
  }

  /** There is more than one piece exactly when the separator occurs, and no
      piece contains it. */
  lemma {:induction false} SplitPieces(s: string, sep: char)
    ensures |Split(s, sep)| == 1 <==> sep !in s
    ensures forall i :: 0 <= i < |Split(s, sep)| ==> sep !in Split(s, sep)[i]
    decreases |s|
  {
    if s != [] {
      SplitPieces(s[1..], sep);
      assert sep in s <==> s[0] == sep || sep in s[1..] by {
        assert s == [s[0]] + s[1..];
      }
      var rest := Split(s[1..], sep);
      if s[0] != sep {
        var parts := Split(s, sep);
        assert parts[0] == [s[0]] + rest[0];
        assert forall i :: 1 <= i < |parts| ==> parts[i] == rest[i];
      }
    }
  }

  /** `parts.join(sep)`, the inverse of `Split`. */
  function Join(parts: seq<string>, sep: char): string
    requires |parts| >= 1
    decreases |parts|
  {
    if |parts| == 1 then parts[0] else parts[0] + [sep] + Join(parts[1..], sep)
  }

  /** Splitting loses nothing: joining the pieces gives back the string. */
  lemma {:induction false} JoinSplit(s: string, sep: char)
    ensures Join(Split(s, sep), sep) == s
    decreases |s|
  {
    if s != [] {
      var rest := Split(s[1..], sep);
      JoinSplit(s[1..], sep);
      if s[0] == sep {
        assert ([[]] + rest)[1..] == rest;
      } else {
        JoinExtendsHead(s[0], rest, sep);
      }
    }
  }

  lemma JoinExtendsHead(c: char, parts: seq<string>, sep: char)
    requires |parts| >= 1
    ensures Join([[c] + parts[0]] + parts[1..], sep) == [c] + Join(parts, sep)
  {
    var ext := [[c] + parts[0]] + parts[1..];
    assert ext[1..] == parts[1..];
  }

  /** A string without the separator is a single piece. */
  lemma {:induction false} SplitWithoutSeparator(w: string, sep: char)
    requires sep !in w
    ensures Split(w, sep) == [w]
    decreases |w|
  {
    if w != [] {
      assert sep !in w[1..];
      SplitWithoutSeparator(w[1..], sep);
      assert [w[0]] + w[1..] == w;
    }
  }

  /** A piece followed by the separator comes off the front unchanged. */
  lemma {:induction false} SplitAfterPiece(w: string, rest: string, sep: char)
    requires sep !in w
    ensures Split(w + [sep] + rest, sep) == [w] + Split(rest, sep)
    decreases |w|
  {
    var s := w + [sep] + rest;
    if w == [] {
      assert s[1..] == rest;
    } else {
      assert s[0] == w[0] && s[1..] == w[1..] + [sep] + rest;
      assert sep !in w[1..];
      SplitAfterPiece(w[1..], rest, sep);
      assert [w[0]] + w[1..] == w;
    }
  }

  /** Joining pieces that hold no separator and splitting again gives back the pieces. */
  lemma {:induction false} SplitJoin(parts: seq<string>, sep: char)
    requires |parts| >= 1
    requires forall i :: 0 <= i < |parts| ==> sep !in parts[i]
    ensures Split(Join(parts, sep), sep) == parts
    decreases |parts|
  {
    if |parts| == 1 {
      SplitWithoutSeparator(parts[0], sep);
    } else {
      SplitAfterPiece(parts[0], Join(parts[1..], sep), sep);
      SplitJoin(parts[1..], sep);
      assert [parts[0]] + parts[1..] == parts;
    }
  }

  // ---------------------------------------------------------------------------
  // Decimal digits
  // ---------------------------------------------------------------------------

  predicate IsDigit(c: char) {
    '0' <= c <= '9'
  }

  predicate IsDigits(s: string) {
    forall i :: 0 <= i < |s| ==> IsDigit(s[i])
  }

  function DigitValue(c: char): nat
    requires IsDigit(c)
  {
    c as int - '0' as int
  }

  function DigitChar(d: nat): char
    requires d < 10
  {
    ('0' as int + d) as char
  }

  /** The value of a decimal numeral, most significant digit first; the empty
      numeral is 0, as `Number("")` is. */
  function ParseDigits(s: string): nat
    requires IsDigits(s)
    decreases |s|
  {
    if s == [] then 0 else 10 * ParseDigits(s[..|s| - 1]) + DigitValue(s[|s| - 1])
  }

  /** `n.toString()` for a non-negative integer: its decimal numeral without
      leading zeros. */
  function NatToString(n: nat): (s: string)
    ensures IsDigits(s) && |s| >= 1
    ensures |s| == 1 <==> n < 10
    ensures 10 <= n < 100 ==> |s| == 2
    decreases n
  {
    if n < 10 then [DigitChar(n)] else NatToString(n / 10) + [DigitChar(n % 10)]
  }

  /** A numeral is canonical when it is "0" or does not start with a zero. */
  predicate Canonical(s: string) {
    IsDigits(s) && s != [] && (s[0] == '0' ==> |s| == 1)
  }

  /** Printing and reading back gives the number. */
  lemma {:induction false} ParsePrinted(n: nat)
    ensures ParseDigits(NatToString(n)) == n
    decreases n
  {
    if n >= 10 {
      var s := NatToString(n);
      assert s[..|s| - 1] == NatToString(n / 10);
      ParsePrinted(n / 10);
    }
  }

  /** Reading a canonical numeral and printing it gives the numeral. */
  lemma {:induction false} PrintParsed(s: string)
    requires Canonical(s)
    ensures NatToString(ParseDigits(s)) == s
    decreases |s|
  {
    var t := s[..|s| - 1];
    var d := s[|s| - 1];
    if t == [] {
      assert s == [d];
      assert DigitChar(DigitValue(d)) == d;
    } else {
      assert t[0] == s[0];
      LeadingDigitPositive(t);
      PrintParsed(t);
      var n := ParseDigits(s);
      assert n / 10 == ParseDigits(t) && n % 10 == DigitValue(d);
      assert DigitChar(DigitValue(d)) == d;
      assert t + [d] == s;
    }
  }

  lemma {:induction false} LeadingDigitPositive(t: string)
    requires Canonical(t) && t[0] != '0'
    ensures ParseDigits(t) > 0
    decreases |t|
  {
    var u := t[..|t| - 1];
    if u != [] {
      assert u[0] == t[0];
      LeadingDigitPositive(u);
    }
  }

  /** A leading zero does not change the value of a numeral. */
  lemma {:induction false} LeadingZero(s: string)
    requires IsDigits(s)
    ensures IsDigits(['0'] + s)
    ensures ParseDigits(['0'] + s) == ParseDigits(s)
    decreases |s|
  {
    if s != [] {
      var z := ['0'] + s;
      assert z[..|z| - 1] == ['0'] + s[..|s| - 1];
      LeadingZero(s[..|s| - 1]);
    }
  }

  // ---------------------------------------------------------------------------
  // Number(...) and toString()
  // ---------------------------------------------------------------------------

  /** A JavaScript number as far as this model needs: a non-negative integer
      or NaN. */
  datatype JsNumber = Num(n: nat) | NaN

  /** `Number(s)` on decimal digit strings (including the empty string, which
      is 0); every other string is NaN here. */
  function ToNumber(s: string): (x: JsNumber)
    ensures x.NaN? <==> !IsDigits(s)
    ensures x.Num? && Canonical(s) ==> NatToString(x.n) == s
  {
    if !IsDigits(s) then NaN
    else if Canonical(s) then PrintParsed(s); Num(ParseDigits(s))
    else Num(ParseDigits(s))
  }

  /** `x.toString()`. */
  function NumberToString(x: JsNumber): (s: string)
    ensures x.NaN? <==> s == "NaN"
    ensures x.Num? ==> Canonical(s) && ParseDigits(s) == x.n
  {
    match x
    case Num(n) =>
      PrintedCanonical(n);
      ParsePrinted(n);
      NatToString(n)
    case NaN => "NaN"
  }

  /** A printed number has no leading zero. */
  lemma {:induction false} PrintedCanonical(n: nat)
    ensures Canonical(NatToString(n))
    decreases n
  {
    if n >= 10 {
      PrintedCanonical(n / 10);
      assert NatToString(n)[0] == NatToString(n / 10)[0];
    }
  }

  /** `Number(x.toString())` gives back every number that `toString` prints. */
  lemma NumberRoundTrip(x: JsNumber)
    ensures ToNumber(NumberToString(x)) == x
  {
    if x.Num? {
      ParsePrinted(x.n);
    }
  }

  // ---------------------------------------------------------------------------
  // padStart
  // ---------------------------------------------------------------------------

  /** `s.padStart(width, fill)`: `s` preceded by as many copies of `fill` as
      bring it to `width`; a string already that long is unchanged. */
  function PadStart(s: string, width: nat, fill: char): (r: string)
    ensures |r| == if |s| >= width then |s| else width
    decreases width - |s|
  {
    if |s| >= width then s else PadStart([fill] + s, width, fill)
  }

  /** The padded string has the requested width (or its own, if longer), ends
      with `s` and is `fill` before it. */
  lemma {:induction false} PadStartShape(s: string, width: nat, fill: char)
    ensures |PadStart(s, width, fill)| == if |s| >= width then |s| else width
    ensures PadStart(s, width, fill)[|PadStart(s, width, fill)| - |s|..] == s
    ensures forall i :: 0 <= i < |PadStart(s, width, fill)| - |s| ==> PadStart(s, width, fill)[i] == fill
    decreases width - |s|
  {
    if |s| < width {
      var r := PadStart([fill] + s, width, fill);
      PadStartShape([fill] + s, width, fill);
      assert r[|r| - |s| - 1..] == [fill] + s;
      assert r[|r| - |s|..] == ([fill] + s)[1..];
    }
  }

  /** Padding a numeral with zeros keeps it a numeral of the same value. */
  lemma {:induction false} ZeroPaddingKeepsValue(s: string, width: nat)
    requires IsDigits(s)
    ensures IsDigits(PadStart(s, width, '0'))
    ensures ParseDigits(PadStart(s, width, '0')) == ParseDigits(s)
    decreases width - |s|
  {
    if |s| < width {
      LeadingZero(s);
      ZeroPaddingKeepsValue(['0'] + s, width);
    }
  }
}
