/**
  * The Python 2 built-ins on strings and lists that the bestiary and
  * character-sheet code relies on, with their edge cases written out:
  * `str.find` with a start index that may be negative, indexing with
  * negative indices, slices that clamp, `str.replace`, `str.split` on an
  * explicit separator (empty pieces are kept), `str.join`, `strip`/`rstrip`,
  * `re.sub(r'\s+', ' ', s)`, `list.index`, `lower`/`upper` on ASCII text and
  * `str(n)` on integers. A raised exception is an `Err` result.
  */
module Text {

  datatype PyError = IndexError | ValueError | KeyError | ZeroDivisionError

  datatype Result<+T> = Ok(value: T) | Err(error: PyError) {
    predicate IsFailure() { Err? }
    function PropagateFailure<U>(): Result<U> requires Err? { Err(error) }
    function Extract(): T requires Ok? { value }
  }

  datatype Option<+T> = None | Some(value: T)

  /** The outcome of a Python procedure that returns nothing or raises. */
  datatype Outcome = Pass | Fail(error: PyError)

  // ---------------------------------------------------------------- characters

  /** The characters `\s` matches in a Python 2 byte string: space, \t \n \v \f \r. */
  predicate IsSpace(c: char) { c == ' ' || 9 <= c as int <= 13 }

  function Lower(c: char): char { if 'A' <= c <= 'Z' then (c as int + 32) as char else c }

  function Upper(c: char): char { if 'a' <= c <= 'z' then (c as int - 32) as char else c }

  /** `str.lower()` on ASCII text. */
  function LowerStr(s: string): (r: string)
    ensures |r| == |s| && forall i :: 0 <= i < |s| ==> r[i] == Lower(s[i])
  { seq(|s|, i requires 0 <= i < |s| => Lower(s[i])) }

  /** `str.upper()` on ASCII text. */
  function UpperStr(s: string): (r: string)
    ensures |r| == |s| && forall i :: 0 <= i < |s| ==> r[i] == Upper(s[i])
  {
    if s == [] then [] else [Upper(s[0])] + UpperStr(s[1..])
  }

  /** `s.encode('ascii', 'ignore')`: every character outside ASCII is dropped. */
  function AsciiOnly(s: string): (r: string)
    ensures |r| <= |s|
    ensures forall i :: 0 <= i < |r| ==> r[i] as int < 128
    ensures (forall i :: 0 <= i < |s| ==> s[i] as int < 128) ==> r == s
  {
    if s == [] then []
    else (if s[0] as int < 128 then [s[0]] else []) + AsciiOnly(s[1..])
  }

  // ---------------------------------------------------------------- searching

  predicate OccursAt(s: string, w: string, i: int)
  {
    0 <= i && i + |w| <= |s| && s[i..i + |w|] == w
  }

  /** `w in s` for strings. */
  predicate Contains(s: string, w: string)
  {
    exists i | 0 <= i <= |s| - |w| :: OccursAt(s, w, i)
  }

  predicate EndsWith(s: string, w: string)
  {
    |w| <= |s| && s[|s| - |w|..] == w
  }

  /** The first occurrence of `w` in `s` at or after `i`, or -1. */
  function FindFrom(s: string, w: string, i: nat): (r: int)
    decreases |s| - i
    ensures r == -1 || (i <= r && OccursAt(s, w, r))
    ensures forall j :: i <= j && (r == -1 || j < r) ==> !OccursAt(s, w, j)
  {
    if i + |w| > |s| then -1
    else if s[i..i + |w|] == w then i
    else FindFrom(s, w, i + 1)
  }

  /** A start index as `str.find` reads it: a negative one counts from the end. */
  function FindStart(start: int, n: nat): nat
  {
    if start >= 0 then start else if n + start < 0 then 0 else n + start
  }

  /** `s.find(w, start)`. */
  function Find(s: string, w: string, start: int): int
  {
    FindFrom(s, w, FindStart(start, |s|))
  }

  lemma ContainsIffFound(s: string, w: string)
    ensures Contains(s, w) <==> FindFrom(s, w, 0) >= 0
  {
    var r := FindFrom(s, w, 0);
    if r >= 0 {
      assert OccursAt(s, w, r);
    }
  }

  /** A string containing `w` contains the first character of `w`. */
  lemma ContainsFirstChar(s: string, w: string)
    requires |w| > 0 && Contains(s, w)
    ensures w[0] in s
  {
    var i :| 0 <= i <= |s| - |w| && OccursAt(s, w, i);
    assert s[i] == s[i..i + |w|][0];
  }

  /** A word whose first character is absent is not found. */
  lemma FirstCharAbsent(s: string, w: string)
    requires |w| > 0 && w[0] !in s
    ensures FindFrom(s, w, 0) == -1
  {
    ContainsIffFound(s, w);
    if Contains(s, w) {
      ContainsFirstChar(s, w);
    }
  }

  lemma ContainsChar(s: string, c: char)
    ensures Contains(s, [c]) <==> c in s
  {
    if c in s {
      var i :| 0 <= i < |s| && s[i] == c;
      assert OccursAt(s, [c], i);
    }
    if Contains(s, [c]) {
      var i :| 0 <= i <= |s| - 1 && OccursAt(s, [c], i);
      assert s[i] == s[i..i + 1][0];
    }
  }

  /** When `sep` first occurs right after `p`, the split yields `p` and then the pieces of the rest. */
  lemma SplitAtFirst(p: string, sep: string, q: string)
    requires |sep| > 0
    requires forall j :: 0 <= j < |p| ==> !OccursAt(p + sep + q, sep, j)
    ensures Split(p + sep + q, sep) == [p] + Split(q, sep)
  {
    var s := p + sep + q;
    assert s[|p|..|p| + |sep|] == sep;
    assert OccursAt(s, sep, |p|);
    var r := FindFrom(s, sep, 0);
    assert r == |p|;
    assert s[..|p|] == p;
    assert s[|p| + |sep|..] == q;
  }

  /** `xs.index(x, start)`: `ValueError` when `x` does not occur at or after `start`. */
  function IndexOf<T(==)>(xs: seq<T>, x: T, start: nat): (r: Result<nat>)
    decreases |xs| - start
    ensures r.Ok? ==> start <= r.value < |xs| && xs[r.value] == x
    ensures r.Ok? ==> forall j :: start <= j < r.value ==> xs[j] != x
    ensures r.Err? ==> r.error == ValueError && forall j :: start <= j < |xs| ==> xs[j] != x
  {
    if start >= |xs| then Err(ValueError)
    else if xs[start] == x then Ok(start)
    else IndexOf(xs, x, start + 1)
  }

  // ---------------------------------------------------------------- indexing and slicing

  /** `s[i]`, where a negative `i` counts from the end. */
  function At<T>(s: seq<T>, i: int): Result<T>
  {
    if 0 <= i < |s| then Ok(s[i])
    else if -|s| <= i < 0 then Ok(s[|s| + i])
    else Err(IndexError)
  }

  /** A slice bound as Python reads it: negative counts from the end, and it is clamped. */
  function SliceIndex(i: int, n: nat): (r: nat)
    ensures r <= n
    ensures 0 <= i <= n ==> r == i
  {
    if i < 0 then (if n + i < 0 then 0 else n + i) else if i > n then n else i
  }

  /** `s[lo:hi]`. */
  function Slice<T>(s: seq<T>, lo: int, hi: int): seq<T>
  {
    var a, b := SliceIndex(lo, |s|), SliceIndex(hi, |s|);
    if a <= b then s[a..b] else []
  }

  // ---------------------------------------------------------------- rewriting

  /** `s.replace(pat, rep)`: occurrences are taken left to right without overlap. */
  function ReplaceAll(s: string, pat: string, rep: string): (r: string)
    requires |pat| > 0
    decreases |s|
    ensures forall c :: c in r ==> c in s || c in rep
  {
    if |s| < |pat| then s
    else if s[..|pat|] == pat then rep + ReplaceAll(s[|pat|..], pat, rep)
    else [s[0]] + ReplaceAll(s[1..], pat, rep)
  }

  lemma {:induction false} ReplaceRemovesChar(s: string, c: char)
    ensures c !in ReplaceAll(s, [c], "")
  {
    if |s| >= 1 {
      ReplaceRemovesChar(s[1..], c);
    }
  }

  /** `s.split(sep)`: the pieces between left-to-right occurrences of `sep`. */
  function Split(s: string, sep: string): (r: seq<string>)
    requires |sep| > 0
    decreases |s|
    ensures |r| >= 1
  {
    var i := FindFrom(s, sep, 0);
    if i < 0 then [s] else [s[..i]] + Split(s[i + |sep|..], sep)
  }

  /** `sep.join(ws)`. */
  function Join(sep: string, ws: seq<string>): string
  {
    if ws == [] then ""
    else if |ws| == 1 then ws[0]
    else ws[0] + sep + Join(sep, ws[1..])
  }

  /** Cutting a sequence at two points and gluing the parts back together. */
  lemma SplitThree<T>(s: seq<T>, a: nat, b: nat)
    requires a <= b <= |s|
    ensures s == s[..a] + s[a..b] + s[b..]
  {
    assert s[..b] == s[..a] + s[a..b];
    assert s == s[..b] + s[b..];
  }

  lemma JoinCons(sep: string, w: string, ws: seq<string>)
    requires |ws| >= 1
    ensures Join(sep, [w] + ws) == w + sep + Join(sep, ws)
  {
    assert ([w] + ws)[1..] == ws;
  }

  /** Joining the pieces of a split with the same separator gives the text back. */
  lemma {:induction false} JoinSplit(s: string, sep: string)
    requires |sep| > 0
    ensures Join(sep, Split(s, sep)) == s
    decreases |s|
  {
    var i := FindFrom(s, sep, 0);
    if i >= 0 {
      var rest := s[i + |sep|..];
      var pieces := Split(rest, sep);
      assert Split(s, sep) == [s[..i]] + pieces;
      assert Join(sep, pieces) == rest by { JoinSplit(rest, sep); }
      JoinCons(sep, s[..i], pieces);
      assert s == s[..i] + sep + rest by {
        assert s[i..i + |sep|] == sep;
        SplitThree(s, i, i + |sep|);
      }
    }
  }

  lemma SplitWithoutSeparator(s: string, sep: string)
    requires |sep| > 0 && !Contains(s, sep)
    ensures Split(s, sep) == [s]
  {
    ContainsIffFound(s, sep);
  }

  /** `s.lstrip()`. */
  function LStrip(s: string): (r: string)
    ensures |r| <= |s|
    ensures r == [] || !IsSpace(r[0])
    ensures forall i :: 0 <= i < |s| - |r| ==> IsSpace(s[i])
  {
    if s != [] && IsSpace(s[0]) then LStrip(s[1..]) else s
  }

  /** Stripping leading whitespace leaves a suffix of the text. */
  lemma {:induction false} LStripSuffix(s: string)
    ensures LStrip(s) == s[|s| - |LStrip(s)|..]
  {
    if s != [] && IsSpace(s[0]) {
      LStripSuffix(s[1..]);
    }
  }

  /** Stripping leading whitespace brings in no character. */
  lemma LStripKeepsChars(s: string)
    ensures forall c :: c in LStrip(s) ==> c in s
  {
    LStripSuffix(s);
    var t := LStrip(s);
    forall c | c in t
      ensures c in s
    {
      var j :| 0 <= j < |t| && t[j] == c;
      assert s[|s| - |t|..][j] == c;
    }
  }

  /** `s.rstrip()`. */
  function RStrip(s: string): (r: string)
    ensures |r| <= |s| && r == s[..|r|]
    ensures r == [] || !IsSpace(r[|r| - 1])
    ensures forall i :: |r| <= i < |s| ==> IsSpace(s[i])
  {
    if s != [] && IsSpace(s[|s| - 1]) then RStrip(s[..|s| - 1]) else s
  }

  /** `s.strip()`. */
  function Strip(s: string): string
  {
    LStrip(RStrip(s))
  }

  /** No two neighbouring characters are both spaces. */
  predicate SingleSpaced(r: string)
  {
    forall i, j :: 0 <= i < |r| && 0 <= j < |r| && j == i + 1 && r[i] == ' ' ==> r[j] != ' '
  }

  /** `re.sub(r'\s+', ' ', s)`: every run of whitespace becomes one space. */
  function CollapseSpaces(s: string): (r: string)
    decreases |s|
    ensures s != [] ==> r != [] && r[0] == (if IsSpace(s[0]) then ' ' else s[0])
    ensures forall i :: 0 <= i < |r| && IsSpace(r[i]) ==> r[i] == ' '
    ensures SingleSpaced(r)
  {
    if s == [] then []
    else if IsSpace(s[0]) then " " + CollapseSpaces(LStrip(s[1..]))
    else [s[0]] + CollapseSpaces(s[1..])
  }

  /** Collapsing whitespace brings in no character except the space. */
  lemma {:induction false} CollapseKeepsChars(s: string)
    decreases |s|
    ensures forall c :: c in CollapseSpaces(s) ==> c in s || c == ' '
  {
    if s == [] {
    } else if IsSpace(s[0]) {
      var t := LStrip(s[1..]);
      CollapseKeepsChars(t);
      LStripKeepsChars(s[1..]);
      assert forall c :: c in s[1..] ==> c in s;
    } else {
      CollapseKeepsChars(s[1..]);
    }
  }

  // ---------------------------------------------------------------- numbers

  function DigitChar(d: nat): char
    requires d < 10
  {
    ['0','1','2','3','4','5','6','7','8','9'][d]
  }

  predicate IsDigit(c: char) { '0' <= c <= '9' }

  /** `str(n)` for a natural number. */
  function NatToString(n: nat): (r: string)
    ensures |r| >= 1
    ensures forall i :: 0 <= i < |r| ==> IsDigit(r[i])
  {
    if n < 10 then [DigitChar(n)] else NatToString(n / 10) + [DigitChar(n % 10)]
  }

  /** `str(n)` for any integer. */
  function IntToString(n: int): string
  {
    if n < 0 then "-" + NatToString(-n) else NatToString(n)
  }

  /** The value of a string of decimal digits. */
  function ParseNat(s: string): nat
    requires forall i :: 0 <= i < |s| ==> IsDigit(s[i])
  {
    if s == [] then 0
    else
      assert IsDigit(s[|s| - 1]);
      ParseNat(s[..|s| - 1]) * 10 + (s[|s| - 1] as int - '0' as int)
  }

  /** Reading back the digits of `str(n)` gives `n`; so `str` is injective on naturals. */
  lemma {:induction false} ParseNatToString(n: nat)
    ensures ParseNat(NatToString(n)) == n
  {
    var s := NatToString(n);
    if n >= 10 {
      ParseNatToString(n / 10);
      assert s[..|s| - 1] == NatToString(n / 10);
    }
  }

  lemma NatToStringInjective(m: nat, n: nat)
    requires NatToString(m) == NatToString(n)
    ensures m == n
  {
    ParseNatToString(m);
    ParseNatToString(n);
  }
}
