/**
 * The pure part of `Git.status_for`: counting the `<` (behind) and `>`
 * (ahead) lines of `git rev-list --left-right` and rendering the two counts
 * as `<b>a`, `<b`, `>a` or `=`. Running git is not part of this model: the
 * output lines are a parameter. ParseStatus reads a rendering back, which
 * shows that the rendering keeps both counts.
 */
module GitStatus {
  import opened Options

  /** `r.startswith(mark)`. */
  predicate Marked(r: string, mark: char)
  {
    |r| > 0 && r[0] == mark
  }

  /** `len([1 for r in revs if r.startswith(mark)])`. */
  function CountMarked(revs: seq<string>, mark: char): (n: nat)
    ensures n <= |revs|
    ensures n == 0 <==> forall r :: r in revs ==> !Marked(r, mark)
    ensures n == |revs| <==> forall r :: r in revs ==> Marked(r, mark)
  {
    if revs == [] then 0
    else (if Marked(revs[0], mark) then 1 else 0) + CountMarked(revs[1..], mark)
  }

  /** The count over two runs of lines is the sum of their counts. */
  lemma {:induction false} CountMarkedAppend(a: seq<string>, b: seq<string>, mark: char)
    ensures CountMarked(a + b, mark) == CountMarked(a, mark) + CountMarked(b, mark)
    decreases |a|
  {
    if a != [] {
      assert (a + b)[1..] == a[1..] + b;
      CountMarkedAppend(a[1..], b, mark);
    } else {
      assert a + b == b;
    }
  }

  /** A single line counts once when it starts with the mark, else not at all. */
  lemma CountMarkedOne(r: string, mark: char)
    ensures CountMarked([r], mark) == if Marked(r, mark) then 1 else 0
  {
    assert [r][1..] == [];
  }

  predicate IsDigit(c: char)
  {
    '0' <= c <= '9'
  }

  predicate AllDigits(s: string)
  {
    forall i :: 0 <= i < |s| ==> IsDigit(s[i])
  }

  function DigitChar(d: nat): (c: char)
    requires d < 10
    ensures IsDigit(c)
  {
    ('0' as int + d) as char
  }

  function DigitValue(c: char): (d: nat)
    requires IsDigit(c)
    ensures d < 10
  {
    (c as int - '0' as int) as nat
  }

  /** `"%s" % n` for a natural number: its decimal digits, no leading zero. */
  function Decimal(n: nat): (s: string)
    ensures |s| > 0 && AllDigits(s)
    ensures |s| > 1 ==> s[0] != '0'
    ensures s[0] == '0' <==> n == 0
    decreases n
  {
    if n < 10 then [DigitChar(n)] else Decimal(n / 10) + [DigitChar(n % 10)]
  }

  /** The number a string of decimal digits denotes. */
  function DecimalValue(s: string): nat
    requires AllDigits(s)
    decreases |s|
  {
    if s == [] then 0 else DecimalValue(s[..|s| - 1]) * 10 + DigitValue(s[|s| - 1])
  }

  /** Reading a rendered count back gives the count. */
  lemma {:induction false} DecimalRoundTrip(n: nat)
    ensures DecimalValue(Decimal(n)) == n
    decreases n
  {
    if n >= 10 {
      DecimalRoundTrip(n / 10);
      var s := Decimal(n);
      assert s[..|s| - 1] == Decimal(n / 10);
    }
  }

  /** The rendering of behind/ahead counts, lines 72-76 of `status_for`. */
  function StatusText(behind: nat, ahead: nat): (s: string)
    ensures |s| > 0
    ensures s == "=" <==> behind == 0 && ahead == 0
    ensures s[0] == '<' <==> behind > 0
    ensures '<' in s <==> behind > 0
    ensures '>' in s <==> ahead > 0
    ensures behind > 0 ==> "<" + Decimal(behind) <= s
    ensures ahead > 0 ==> |s| > |Decimal(ahead)| && s[|s| - 1 - |Decimal(ahead)|..] == ">" + Decimal(ahead)
  {
    var behindStr := if behind > 0 then "<" + Decimal(behind) else "";
    var aheadStr := if ahead > 0 then ">" + Decimal(ahead) else "";
    NoMarkInDigits(Decimal(behind));
    NoMarkInDigits(Decimal(ahead));
    var out := behindStr + aheadStr;
    if out != "" then out else "="
  }

  /** A marker character is never a digit. */
  lemma NoMarkInDigits(d: string)
    requires AllDigits(d)
    ensures '<' !in d && '>' !in d
  {
    forall i | 0 <= i < |d| ensures d[i] != '<' && d[i] != '>' {
      assert IsDigit(d[i]);
    }
  }

  /** `Git.status_for`, given the output lines of `git rev-list`. */
  function StatusFor(revs: seq<string>): (s: string)
    ensures s == "=" <==> forall r :: r in revs ==> !Marked(r, '<') && !Marked(r, '>')
  {
    StatusText(CountMarked(revs, '<'), CountMarked(revs, '>'))
  }

  /** Length of the run of digits at the start of `s`. */
  function DigitRun(s: string): (k: nat)
    ensures k <= |s| && AllDigits(s[..k])
    ensures k < |s| ==> !IsDigit(s[k])
    decreases |s|
  {
    if s != [] && IsDigit(s[0]) then 1 + DigitRun(s[1..]) else 0
  }

  /**
   * Read `mark` and a positive count off the front of `s`: at least one
   * digit, and no leading zero, as `status_for` only renders counts above 0.
   */
  function ParseCount(s: string, mark: char): Option<(nat, string)>
  {
    if |s| > 0 && s[0] == mark then
      var k := DigitRun(s[1..]);
      if k == 0 || s[1] == '0' then None else Some((DecimalValue(s[1..][..k]), s[1..][k..]))
    else None
  }

  /** Read a status back into its behind and ahead counts. */
  function ParseStatus(s: string): Option<(nat, nat)>
  {
    if s == "=" then Some((0, 0))
    else
      var (behind, rest) := match ParseCount(s, '<')
        case Some(p) => p
        case None => (0, s);
      var (ahead, tail) := match ParseCount(rest, '>')
        case Some(p) => p
        case None => (0, rest);
      if s != [] && tail == [] then Some((behind, ahead)) else None
  }

  /** The digits of a count stop where the next mark starts. */
  lemma {:induction false} DigitRunOfDecimal(n: nat, rest: string)
    requires rest == [] || !IsDigit(rest[0])
    ensures DigitRun(Decimal(n) + rest) == |Decimal(n)|
  {
    DigitRunOfDigits(Decimal(n), rest);
  }

  lemma {:induction false} DigitRunOfDigits(d: string, rest: string)
    requires AllDigits(d)
    requires rest == [] || !IsDigit(rest[0])
    ensures DigitRun(d + rest) == |d|
    decreases |d|
  {
    if d == [] {
      assert d + rest == rest;
    } else {
      assert (d + rest)[1..] == d[1..] + rest;
      DigitRunOfDigits(d[1..], rest);
    }
  }

  /** A mark, a rendered count and a following part parse back to both. */
  lemma ParseCountOfRendered(n: nat, mark: char, rest: string)
    requires n > 0
    requires rest == [] || !IsDigit(rest[0])
    ensures ParseCount([mark] + Decimal(n) + rest, mark) == Some((n, rest))
  {
    var s := [mark] + Decimal(n) + rest;
    assert s[1..] == Decimal(n) + rest;
    DigitRunOfDecimal(n, rest);
    var k := |Decimal(n)|;
    assert s[1..][..k] == Decimal(n);
    assert s[1..][k..] == rest;
    DecimalRoundTrip(n);
  }

  /** Every status `status_for` renders reads back as the counts it came from. */
  lemma StatusRoundTrip(behind: nat, ahead: nat)
    ensures ParseStatus(StatusText(behind, ahead)) == Some((behind, ahead))
  {
    var s := StatusText(behind, ahead);
    var aheadStr := if ahead > 0 then ">" + Decimal(ahead) else "";
    var rest := s;
    if behind > 0 {
      ParseCountOfRendered(behind, '<', aheadStr);
      assert s == ['<'] + Decimal(behind) + aheadStr;
      rest := aheadStr;
    } else if ahead > 0 {
      assert s == aheadStr;
      assert ParseCount(s, '<') == None;
    }
    assert rest == aheadStr || s == "=";
    if ahead > 0 {
      ParseCountOfRendered(ahead, '>', []);
      assert aheadStr == ['>'] + Decimal(ahead) + [];
    }
  }

  /** A digit string that does not start with a zero denotes a positive number. */
  lemma {:induction false} DecimalValuePositive(d: string)
    requires |d| > 0 && AllDigits(d) && d[0] != '0'
    ensures DecimalValue(d) > 0
    decreases |d|
  {
    if |d| > 1 {
      DecimalValuePositive(d[..|d| - 1]);
    }
  }

  /** Rendering the number a digit string denotes gives back that string,
      provided it has no leading zero. */
  lemma {:induction false} DecimalOfValue(d: string)
    requires |d| > 0 && AllDigits(d) && (|d| > 1 ==> d[0] != '0')
    ensures Decimal(DecimalValue(d)) == d
    decreases |d|
  {
    var last := d[|d| - 1];
    if |d| > 1 {
      var p := d[..|d| - 1];
      DecimalValuePositive(p);
      DecimalOfValue(p);
      var v := DecimalValue(d);
      assert v == DecimalValue(p) * 10 + DigitValue(last);
      assert v / 10 == DecimalValue(p) && v % 10 == DigitValue(last);
      assert d == p + [last];
    }
  }

  /** What ParseCount accepts is a mark, a rendered positive count and the rest. */
  lemma ParseCountSound(s: string, mark: char)
    requires ParseCount(s, mark).Some?
    ensures var (n, rest) := ParseCount(s, mark).value;
      n > 0 && s == [mark] + Decimal(n) + rest
  {
    var k := DigitRun(s[1..]);
    var d := s[1..][..k];
    DecimalValuePositive(d);
    DecimalOfValue(d);
    assert s == [mark] + d + s[1..][k..];
  }

  /** Every string ParseStatus accepts is exactly the rendering of the counts
      it reads, so parsing and rendering are inverse both ways. */
  lemma ParseStatusSound(s: string)
    requires ParseStatus(s).Some?
    ensures StatusText(ParseStatus(s).value.0, ParseStatus(s).value.1) == s
  {
    if s != "=" {
      var (behind, ahead) := ParseStatus(s).value;
      var rest := if ParseCount(s, '<').Some? then ParseCount(s, '<').value.1 else s;
      var behindStr := if behind > 0 then "<" + Decimal(behind) else "";
      var aheadStr := if ahead > 0 then ">" + Decimal(ahead) else "";
      if ParseCount(s, '<').Some? {
        ParseCountSound(s, '<');
        assert s == behindStr + rest;
      } else {
        assert behind == 0 && s == behindStr + rest;
      }
      if ParseCount(rest, '>').Some? {
        ParseCountSound(rest, '>');
        assert rest == aheadStr;
      } else {
        assert ahead == 0 && rest == [];
      }
      assert s == behindStr + aheadStr && s != [];
    }
  }

  /** Different counts never render the same. */
  lemma StatusTextInjective(b1: nat, a1: nat, b2: nat, a2: nat)
    requires StatusText(b1, a1) == StatusText(b2, a2)
    ensures b1 == b2 && a1 == a2
  {
    StatusRoundTrip(b1, a1);
    StatusRoundTrip(b2, a2);
  }

  /** Lines marked behind and lines marked ahead are different lines. */
  lemma {:induction false} CountsWithinLines(revs: seq<string>)
    ensures CountMarked(revs, '<') + CountMarked(revs, '>') <= |revs|
    decreases |revs|
  {
    if revs != [] {
      CountsWithinLines(revs[1..]);
    }
  }
}
