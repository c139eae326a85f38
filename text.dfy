/** Text handling shared by the five solvers: the error-carrying result type and
    the handful of Rust `str` operations the parsers are built from (`trim`,
    `lines`, `split`, `split_once`, `parse::<usize>`, `collect` into a `Result`). */
module Text {
  import opened Decimal

  datatype Option<T> = None | Some(value: T)

  /** A computation that either produces a value or fails with a message, as the
      source's `Result<T, String>`. */
  datatype Result<T> = Ok(value: T) | Err(error: string)

  /** `char::is_whitespace`: the Unicode White_Space characters. */
  predicate IsSpace(c: char) {
    ('\t' <= c <= '\r') || c == ' ' || c == '\U{0085}' || c == '\U{00A0}' || c == '\U{1680}'
    || ('\U{2000}' <= c <= '\U{200A}') || c == '\U{2028}' || c == '\U{2029}' || c == '\U{202F}'
    || c == '\U{205F}' || c == '\U{3000}'
  }

  predicate IsDigitChar(c: char)
    ensures IsDigitChar(c) ==> !IsSpace(c)
  {
    '0' <= c <= '9'
  }

  function DigitValue(c: char): Digit
    requires IsDigitChar(c)
  {
    (c as int) - ('0' as int)
  }

  function DigitChar(d: Digit): (c: char)
    ensures IsDigitChar(c) && DigitValue(c) == d
  {
    (('0' as int) + d) as char
  }

  /** Leading whitespace removed (`str::trim_start`). */
  function TrimStart(s: string): (r: string)
    ensures |r| <= |s| && r == s[|s| - |r|..]
    ensures r == [] || !IsSpace(r[0])
    ensures forall i :: 0 <= i < |s| - |r| ==> IsSpace(s[i])
  {
    if s != [] && IsSpace(s[0]) then TrimStart(s[1..]) else s
  }

  /** Trailing whitespace removed (`str::trim_end`). */
  function TrimEnd(s: string): (r: string)
    ensures |r| <= |s| && r == s[..|r|]
    ensures r == [] || !IsSpace(r[|r| - 1])
    ensures forall i :: |r| <= i < |s| ==> IsSpace(s[i])
  {
    if s != [] && IsSpace(s[|s| - 1]) then TrimEnd(s[..|s| - 1]) else s
  }

  /** `str::trim`: the slice of `s` between its leading and its trailing whitespace. */
  function Trim(s: string): (r: string)
  {
    TrimEnd(TrimStart(s))
  }

  /** Trimming yields a slice of the input, and everything cut away is whitespace. */
  lemma TrimIsSlice(s: string) returns (i: nat, j: nat)
    ensures i <= j <= |s| && Trim(s) == s[i..j]
    ensures forall k :: 0 <= k < i ==> IsSpace(s[k])
    ensures forall k :: j <= k < |s| ==> IsSpace(s[k])
  {
    var t := TrimStart(s);
    i, j := |s| - |t|, |s| - |t| + |TrimEnd(t)|;
    forall k | j <= k < |s| ensures IsSpace(s[k]) {
      assert s[k] == t[k - i];
    }
  }

  /** A trimmed text neither starts nor ends with whitespace. */
  lemma TrimEdges(s: string)
    ensures Trim(s) == [] || (!IsSpace(Trim(s)[0]) && !IsSpace(Trim(s)[|Trim(s)| - 1]))
  {
    var t := TrimStart(s);
    if Trim(s) != [] {
      assert Trim(s)[0] == t[0];
    }
  }

  /** Trimming twice is trimming once. */
  lemma TrimIdempotent(s: string)
    ensures Trim(Trim(s)) == Trim(s)
  {
    var t := Trim(s);
    TrimEdges(s);
    if t != [] {
      assert TrimStart(t) == t;
    }
  }

  /** A text that neither starts nor ends with whitespace is its own trim. */
  lemma TrimUnspaced(s: string)
    requires s == [] || (!IsSpace(s[0]) && !IsSpace(s[|s| - 1]))
    ensures Trim(s) == s
  {
    assert TrimStart(s) == s;
  }

  /** `pat` occurs in `s` at index `i`. */
  predicate OccursAt(s: string, pat: string, i: nat) {
    i + |pat| <= |s| && s[i..i + |pat|] == pat
  }

  /** Index of the first occurrence of `pat` in `s` at or after `from`. */
  function FindFrom(s: string, pat: string, from: nat): (r: Option<nat>)
    ensures r.Some? ==> from <= r.value && OccursAt(s, pat, r.value)
    ensures r.Some? ==> forall i :: from <= i < r.value ==> !OccursAt(s, pat, i)
    ensures r.None? ==> forall i :: from <= i ==> !OccursAt(s, pat, i)
    decreases |s| - from
  {
    if from + |pat| > |s| then None
    else if OccursAt(s, pat, from) then Some(from)
    else FindFrom(s, pat, from + 1)
  }

  /** Index of the first occurrence of `pat` in `s` (`str::find`). */
  function Find(s: string, pat: string): (r: Option<nat>)
    ensures r.Some? ==> OccursAt(s, pat, r.value) && forall i :: 0 <= i < r.value ==> !OccursAt(s, pat, i)
    ensures r.None? ==> forall i: nat :: !OccursAt(s, pat, i)
  {
    FindFrom(s, pat, 0)
  }

  /** Index of the first occurrence of the character `c` in `s`. */
  function FindChar(s: string, c: char): (r: Option<nat>)
    ensures r.Some? ==> r.value < |s| && s[r.value] == c && c !in s[..r.value]
    ensures r.None? ==> c !in s
  {
    if s == [] then None
    else if s[0] == c then Some(0)
    else match FindChar(s[1..], c)
      case None => None
      case Some(i) =>
        assert s[..i + 1] == [s[0]] + s[1..][..i];
        Some(i + 1)
  }

  /** The first `c` in `a + [c] + b` is the one after `a` when `a` holds none. */
  lemma {:induction false} FindCharAfter(a: string, c: char, b: string)
    requires c !in a
    ensures FindChar(a + [c] + b, c) == Some(|a|)
  {
    if a != [] {
      var s := a + [c] + b;
      assert s[0] == a[0] && s[1..] == a[1..] + [c] + b;
      FindCharAfter(a[1..], c, b);
    }
  }

  /** `str::split_once`: the parts before and after the first occurrence of `pat`. */
  function SplitOnce(s: string, pat: string): (r: Option<(string, string)>)
    ensures r.None? <==> Find(s, pat).None?
    ensures r.Some? ==> r.value.0 + pat + r.value.1 == s
    ensures r.Some? ==> |r.value.0| == Find(s, pat).value
  {
    match Find(s, pat)
    case None => None
    case Some(i) =>
      assert s == s[..i] + s[i..i + |pat|] + s[i + |pat|..];
      Some((s[..i], s[i + |pat|..]))
  }

  /** A one-character pattern occurs exactly where that character is. */
  lemma OccursAtChar(s: string, c: char, i: nat)
    ensures OccursAt(s, [c], i) <==> i < |s| && s[i] == c
  {
    if i < |s| && s[i] == c {
      assert s[i..i + 1] == [c];
    }
  }

  /** Splitting once at a one-character pattern splits at the first occurrence of
      that character. */
  lemma SplitOnceChar(s: string, c: char)
    ensures SplitOnce(s, [c]) == match FindChar(s, c)
                                 case None => None
                                 case Some(i) => Some((s[..i], s[i + 1..]))
  {
    match FindChar(s, c)
    case None =>
      if Find(s, [c]).Some? {
        OccursAtChar(s, c, Find(s, [c]).value);
      }
    case Some(i) =>
      OccursAtChar(s, c, i);
      assert Find(s, [c]).Some?;
      OccursAtChar(s, c, Find(s, [c]).value);
  }

  /** The pieces of `s` between the occurrences of `sep` (`str::split` by a character). */
  function Split(s: string, sep: char): (r: seq<string>)
    ensures |r| >= 1
    ensures forall i :: 0 <= i < |r| ==> sep !in r[i]
  {
    match FindChar(s, sep)
    case None => [s]
    case Some(i) => [s[..i]] + Split(s[i + 1..], sep)
  }

  /** Puts the pieces back together with `sep` between them; the inverse of `Split`. */
  function Join(pieces: seq<string>, sep: char): string
    requires |pieces| >= 1
  {
    if |pieces| == 1 then pieces[0] else pieces[0] + [sep] + Join(pieces[1..], sep)
  }

  lemma {:induction false} JoinSplit(s: string, sep: char)
    ensures Join(Split(s, sep), sep) == s
  {
    match FindChar(s, sep)
    case None =>
    case Some(i) =>
      var rest := Split(s[i + 1..], sep);
      var pieces := [s[..i]] + rest;
      assert Split(s, sep) == pieces;
      assert pieces[1..] == rest;
      assert Join(pieces, sep) == s[..i] + [sep] + Join(rest, sep);
      JoinSplit(s[i + 1..], sep);
      assert s == s[..i] + [sep] + s[i + 1..];
  }

  lemma {:induction false} SplitJoin(pieces: seq<string>, sep: char)
    requires |pieces| >= 1
    requires forall i :: 0 <= i < |pieces| ==> sep !in pieces[i]
    ensures Split(Join(pieces, sep), sep) == pieces
  {
    if |pieces| > 1 {
      var p, rest := pieces[0], Join(pieces[1..], sep);
      var s := p + [sep] + rest;
      assert Join(pieces, sep) == s;
      FindCharAfter(p, sep, rest);
      assert s[..|p|] == p && s[|p| + 1..] == rest;
      SplitJoin(pieces[1..], sep);
      assert Split(s, sep) == [p] + Split(rest, sep);
      assert pieces == [p] + pieces[1..];
    }
  }

  /** A trailing carriage return removed (`strip_suffix('\r')`). */
  function StripCR(line: string): (r: string)
    ensures '\r' !in line ==> r == line
  {
    if line != [] && line[|line| - 1] == '\r' then line[..|line| - 1] else line
  }

  /** `str::lines`: the text split at each "\n" (a "\r\n" counts as one line ending);
      the last line ending is optional and an empty text has no lines. */
  function Lines(s: string): (r: seq<string>)
    ensures r == [] <==> s == []
    ensures forall i :: 0 <= i < |r| ==> '\n' !in r[i]
  {
    if s == [] then []
    else match FindChar(s, '\n')
      case None => [s]
      case Some(i) => [StripCR(s[..i])] + Lines(s[i + 1..])
  }

  /** Every line followed by a line ending. */
  function Unlines(ls: seq<string>): string {
    if ls == [] then [] else ls[0] + "\n" + Unlines(ls[1..])
  }

  /** Splitting a text without carriage returns into lines and terminating each
      line with "\n" gives back the text, with a final "\n" added if it lacked one. */
  lemma {:induction false} UnlinesLines(s: string)
    requires '\r' !in s
    ensures Unlines(Lines(s)) == if s == [] || s[|s| - 1] == '\n' then s else s + "\n"
  {
    if s != [] {
      match FindChar(s, '\n')
      case None =>
      case Some(i) =>
        assert s == s[..i] + "\n" + s[i + 1..];
        assert '\r' !in s[..i] && '\r' !in s[i + 1..];
        UnlinesLines(s[i + 1..]);
        if s[i + 1..] != [] {
          assert s[|s| - 1] == s[i + 1..][|s[i + 1..]| - 1];
        }
    }
  }

  /** `usize::from_str` on a string of ASCII digits, with the messages of Rust's
      `ParseIntError`. */
  function ParseNat(s: string): (r: Result<nat>)
    ensures r.Ok? <==> s != [] && forall i :: 0 <= i < |s| ==> IsDigitChar(s[i])
    ensures r.Err? ==> r.error == (if s == [] then EmptyMessage else InvalidDigitMessage)
  {
    if s == [] then Err(EmptyMessage)
    else if exists i :: 0 <= i < |s| && !IsDigitChar(s[i]) then Err(InvalidDigitMessage)
    else Ok(Num(DigitValues(s)))
  }

  const EmptyMessage := "cannot parse integer from empty string"
  const InvalidDigitMessage := "invalid digit found in string"

  function DigitValues(s: string): (ds: seq<Digit>)
    requires forall i :: 0 <= i < |s| ==> IsDigitChar(s[i])
    ensures |ds| == |s| && forall i :: 0 <= i < |s| ==> ds[i] == DigitValue(s[i])
  {
    seq(|s|, i requires 0 <= i < |s| => DigitValue(s[i]))
  }

  /** The decimal representation of `n`, without leading zeros. */
  function ShowNat(n: nat): (s: string)
    ensures |s| == NumDigits(n)
    ensures forall i :: 0 <= i < |s| ==> IsDigitChar(s[i])
  {
    seq(NumDigits(n), i requires 0 <= i < NumDigits(n) => DigitChar(Digits(n)[i]))
  }

  /** Parsing the decimal representation of a number gives the number back. */
  lemma ParseShowNat(n: nat)
    ensures ParseNat(ShowNat(n)) == Ok(n)
  {
    var s := ShowNat(n);
    assert DigitValues(s) == Digits(n);
    NumDigitsOf(n);
  }

  /** Parsing stops at the first failure (`collect::<Result<Vec<_>, _>>()`):
      the values of all items if every item parses, else the first error. */
  function CollectAll<S, T>(xs: seq<S>, f: S -> Result<T>): (r: Result<seq<T>>)
    ensures r.Ok? <==> forall i :: 0 <= i < |xs| ==> f(xs[i]).Ok?
    ensures r.Ok? ==> |r.value| == |xs| && forall i :: 0 <= i < |xs| ==> r.value[i] == f(xs[i]).value
    ensures r.Err? ==> exists i :: 0 <= i < |xs| && f(xs[i]) == Err(r.error)
                                   && forall j :: 0 <= j < i ==> f(xs[j]).Ok?
  {
    if xs == [] then Ok([])
    else match f(xs[0])
      case Err(e) => Err(e)
      case Ok(v) =>
        match CollectAll(xs[1..], f)
        case Err(e) =>
          assert exists i :: 0 <= i < |xs[1..]| && f(xs[1..][i]) == Err(e)
                             && forall j :: 0 <= j < i ==> f(xs[1..][j]).Ok?;
          var i :| 0 <= i < |xs[1..]| && f(xs[1..][i]) == Err(e)
                   && forall j :: 0 <= j < i ==> f(xs[1..][j]).Ok?;
          assert f(xs[i + 1]) == Err(e);
          assert forall j :: 1 <= j < i + 1 ==> f(xs[j]) == f(xs[1..][j - 1]);
          Err(e)
        case Ok(vs) => Ok([v] + vs)
  }

  /** When every item parses, the values are collected in order. */
  lemma CollectAllOk<S, T>(xs: seq<S>, vs: seq<T>, f: S -> Result<T>)
    requires |vs| == |xs| && forall i :: 0 <= i < |xs| ==> f(xs[i]) == Ok(vs[i])
    ensures CollectAll(xs, f) == Ok(vs)
  {
    var r := CollectAll(xs, f);
    assert r.Ok?;
    assert r.value == vs;
  }

  /** Taking one more item that parses extends the collected values by its value. */
  lemma CollectAllStep<S, T>(xs: seq<S>, k: nat, f: S -> Result<T>)
    requires k < |xs| && CollectAll(xs[..k], f).Ok? && f(xs[k]).Ok?
    ensures CollectAll(xs[..k + 1], f) == Ok(CollectAll(xs[..k], f).value + [f(xs[k]).value])
  {
    var ys := xs[..k + 1];
    assert forall i :: 0 <= i < k ==> ys[i] == xs[..k][i];
    assert ys[k] == xs[k];
    var r := CollectAll(ys, f);
    assert r.Ok?;
    assert r.value == CollectAll(xs[..k], f).value + [f(xs[k]).value];
  }

  /** After items that all parse, the first item that fails decides the error. */
  lemma CollectAllFirstErr<S, T>(xs: seq<S>, k: nat, f: S -> Result<T>)
    requires k < |xs| && CollectAll(xs[..k], f).Ok? && f(xs[k]).Err?
    ensures CollectAll(xs, f) == Err(f(xs[k]).error)
  {
    var r := CollectAll(xs, f);
    forall j | 0 <= j < k
      ensures f(xs[j]).Ok?
    {
      assert xs[..k][j] == xs[j];
    }
    assert !f(xs[k]).Ok?;
    assert r.Err?;
    var i :| 0 <= i < |xs| && f(xs[i]) == Err(r.error) && forall j :: 0 <= j < i ==> f(xs[j]).Ok?;
    assert i == k;
  }
}
