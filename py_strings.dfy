/**
 * The parts of Python's `str` and `int` that the presentation scripts lean on:
 * `strip`, `split(sep)`, `split()`, `find`, slicing past the end, `replace` of one
 * character by nothing, `str(n)` and `int(s)`.
 * Whitespace is the ASCII set Python treats as whitespace in a byte string.
 */
module PyStrings {
  import opened Wrappers

  predicate IsSpace(c: char)
  {
    c == ' ' || c == '\t' || c == '\n' || c == '\r' || c == '\U{000B}' || c == '\U{000C}'
  }

  predicate IsDigit(c: char)
  {
    '0' <= c <= '9'
  }

  predicate AllDigits(s: string)
  {
    forall i :: 0 <= i < |s| ==> IsDigit(s[i])
  }

  predicate NoSpace(s: string)
  {
    forall i :: 0 <= i < |s| ==> !IsSpace(s[i])
  }

  predicate AllSpace(s: string)
  {
    forall i :: 0 <= i < |s| ==> IsSpace(s[i])
  }

  // ---------------------------------------------------------------- strip

  /** The number of whitespace characters `s` starts with. */
  function LeadingSpaces(s: string): (k: nat)
    ensures k <= |s|
    ensures forall i :: 0 <= i < k ==> IsSpace(s[i])
    ensures k < |s| ==> !IsSpace(s[k])
    decreases |s|
  {
    if s != [] && IsSpace(s[0]) then 1 + LeadingSpaces(s[1..]) else 0
  }

  /** The number of whitespace characters `s` ends with. */
  function TrailingSpaces(s: string): (k: nat)
    ensures k <= |s|
    ensures forall i :: |s| - k <= i < |s| ==> IsSpace(s[i])
    ensures k < |s| ==> !IsSpace(s[|s| - 1 - k])
    decreases |s|
  {
    if s != [] && IsSpace(s[|s| - 1]) then 1 + TrailingSpaces(s[..|s| - 1]) else 0
  }

  /** `s.lstrip()` */
  function LStrip(s: string): string
  {
    s[LeadingSpaces(s)..]
  }

  /** `s.rstrip()` */
  function RStrip(s: string): string
  {
    s[..|s| - TrailingSpaces(s)]
  }

  /** `s.strip()` */
  function Strip(s: string): (r: string)
    ensures |r| <= |s|
    ensures NoSpace(s) ==> r == s
  {
    RStrip(LStrip(s))
  }

  /** The result of `strip` neither starts nor ends with whitespace. */
  lemma StripEnds(s: string)
    ensures var r := Strip(s); r == [] || (!IsSpace(r[0]) && !IsSpace(r[|r| - 1]))
  {
    var l := LStrip(s);
    var t := TrailingSpaces(l);
    var r := Strip(s);
    if r != [] {
      assert !IsSpace(l[0]);
      assert r[0] == l[0];
      assert r[|r| - 1] == l[|l| - 1 - t];
    }
  }

  /**
   * `strip` removes exactly the whitespace around the text: `s` is a run of whitespace,
   * then the result, then a run of whitespace, and the result is empty or neither starts
   * nor ends with whitespace (which fixes where it begins and ends).
   */
  lemma StripSpec(s: string)
    ensures var a := LeadingSpaces(s); var r := Strip(s);
      a + |r| <= |s| && s == s[..a] + r + s[a + |r|..] &&
      AllSpace(s[..a]) && AllSpace(s[a + |r|..]) &&
      (r == [] || (!IsSpace(r[0]) && !IsSpace(r[|r| - 1])))
  {
    StripEnds(s);
    var a := LeadingSpaces(s);
    var l := LStrip(s);
    var b := TrailingSpaces(l);
    var r := Strip(s);
    assert l == s[a..];
    assert r == l[..|l| - b];
    assert |r| == |s| - a - b;
    assert r == s[a..a + |r|];
    assert s == s[..a] + r + s[a + |r|..];
    assert AllSpace(s[..a]);
    assert AllSpace(s[a + |r|..]) by {
      assert s[a + |r|..] == l[|l| - b..];
    }
  }

  /** A string that neither starts nor ends with whitespace is left alone by `strip`. */
  lemma StripTrimmed(s: string)
    requires s != [] && !IsSpace(s[0]) && !IsSpace(s[|s| - 1])
    ensures Strip(s) == s
  {
    assert LeadingSpaces(s) == 0;
    assert LStrip(s) == s;
    assert TrailingSpaces(s) == 0;
  }

  // ---------------------------------------------------------------- find, slicing

  /** `s.find(c)`: the index of the first `c`, or -1. */
  function Find(s: string, c: char): (r: int)
    ensures -1 <= r < |s|
    ensures r >= 0 ==> s[r] == c && c !in s[..r]
    ensures r == -1 <==> c !in s
  {
    if s == [] then -1
    else if s[0] == c then 0
    else
      var k := Find(s[1..], c);
      assert s[1..][..k + 1] == s[1..k + 2];
      if k == -1 then -1 else k + 1
  }

  /** The first `c` of x + y is where y starts when x has none and y starts with `c`. */
  lemma FindAfter(x: string, y: string, c: char)
    requires c !in x && y != [] && y[0] == c
    ensures Find(x + y, c) == |x|
  {
    var s := x + y;
    assert s[|x|] == c;
    assert forall k :: 0 <= k < |x| ==> s[k] == x[k];
  }

  /** `s[k:]` for k >= 0: empty once k passes the end, never an error. */
  function SliceFrom(s: string, k: nat): string
  {
    if k <= |s| then s[k..] else []
  }

  /** `s.replace(c, '')` for a single character `c`. */
  function Remove(s: string, c: char): (r: string)
    ensures c !in r
    ensures |r| <= |s|
    ensures forall x :: x != c ==> (x in r <==> x in s)
    ensures c !in s ==> r == s
  {
    if s == [] then []
    else if s[0] == c then Remove(s[1..], c)
    else [s[0]] + Remove(s[1..], c)
  }

  /** Sequence concatenation is associative; a step several proofs need spelled out. */
  lemma AppendAssoc<T>(a: seq<T>, b: seq<T>, c: seq<T>)
    ensures (a + b) + c == a + (b + c)
  {
  }

  /**
   * `replace(c, '')` distributes over concatenation and drops exactly the `c`s:
   * together these fix the order and the number of every kept character.
   */
  lemma {:induction false} RemoveConcat(x: string, y: string, c: char)
    ensures Remove(x + y, c) == Remove(x, c) + Remove(y, c)
    decreases |x|
  {
    if x == [] {
      assert x + y == y;
    } else {
      var xy := x + y;
      assert xy[0] == x[0];
      assert xy[1..] == x[1..] + y;
      RemoveConcat(x[1..], y, c);
      if x[0] == c {
        assert Remove(xy, c) == Remove(x[1..] + y, c);
        assert Remove(x, c) == Remove(x[1..], c);
      } else {
        assert Remove(xy, c) == [x[0]] + Remove(x[1..] + y, c);
        assert Remove(x, c) == [x[0]] + Remove(x[1..], c);
      }
    }
  }

  lemma RemoveChar(ch: char, c: char)
    ensures Remove([ch], c) == if ch == c then [] else [ch]
  {
    assert [ch][1..] == [];
  }

  // ---------------------------------------------------------------- split

  /** `sep.join(parts)`, the inverse of `Split`. */
  function Join(parts: seq<string>, sep: char): string
  {
    if parts == [] then []
    else if |parts| == 1 then parts[0]
    else parts[0] + [sep] + Join(parts[1..], sep)
  }

  lemma SplitAround<T>(s: seq<T>, i: nat)
    requires i < |s|
    ensures s[..i] + [s[i]] + s[i + 1..] == s
  {
  }

  lemma JoinCons(first: string, rest: seq<string>, sep: char)
    requires rest != []
    ensures Join([first] + rest, sep) == first + [sep] + Join(rest, sep)
  {
    assert ([first] + rest)[1..] == rest;
  }

  /** `s.split(sep)` for a one-character separator: one more part than there are separators. */
  function Split(s: string, sep: char): (parts: seq<string>)
    ensures |parts| >= 1
    decreases |s|
  {
    var i := Find(s, sep);
    if i < 0 then [s] else [s[..i]] + Split(s[i + 1..], sep)
  }

  /** The parts hold no separator and joining them with it gives back `s`. */
  lemma {:induction false} SplitJoin(s: string, sep: char)
    ensures forall i :: 0 <= i < |Split(s, sep)| ==> sep !in Split(s, sep)[i]
    ensures Join(Split(s, sep), sep) == s
    ensures sep !in s ==> Split(s, sep) == [s]
    decreases |s|
  {
    var i := Find(s, sep);
    if i >= 0 {
      var rest := Split(s[i + 1..], sep);
      SplitJoin(s[i + 1..], sep);
      JoinCons(s[..i], rest, sep);
      SplitAround(s, i);
      assert ([s[..i]] + rest)[1..] == rest;
    }
  }

  /** The first part is what precedes the first separator (all of `s` when there is none). */
  lemma SplitFirst(s: string, sep: char)
    ensures var first := Split(s, sep)[0];
      first == s[..|first|] && sep !in first && (|first| < |s| ==> s[|first|] == sep)
  {
  }

  /** The length of the run of non-whitespace characters that starts `s`. */
  function WordLength(s: string): (k: nat)
    ensures k <= |s|
    ensures NoSpace(s[..k])
    ensures k < |s| ==> IsSpace(s[k])
  {
    if s == [] || IsSpace(s[0]) then 0 else 1 + WordLength(s[1..])
  }

  /** `s.split()`: the maximal runs of non-whitespace characters, left to right. */
  function Words(s: string): (ws: seq<string>)
    ensures forall i :: 0 <= i < |ws| ==> ws[i] != [] && NoSpace(ws[i])
    ensures NoSpace(s) ==> ws == if s == [] then [] else [s]
    decreases |s|
  {
    var t := LStrip(s);
    if t == [] then []
    else
      var k := WordLength(t);
      assert NoSpace(s) ==> t == s && k == |t| && t[..k] == s && t[k..] == [];
      [t[..k]] + Words(t[k..])
  }

  lemma {:induction false} LeadingSpacesAfter(g: string, s: string)
    requires AllSpace(g)
    ensures LeadingSpaces(g + s) == |g| + LeadingSpaces(s)
    decreases |g|
  {
    if g == [] {
      assert g + s == s;
    } else {
      assert (g + s)[0] == g[0];
      assert (g + s)[1..] == g[1..] + s;
      LeadingSpacesAfter(g[1..], s);
    }
  }

  lemma {:induction false} WordLengthOf(w: string, rest: string)
    requires NoSpace(w) && (rest == [] || IsSpace(rest[0]))
    ensures WordLength(w + rest) == |w|
    decreases |w|
  {
    if w == [] {
      assert w + rest == rest;
    } else {
      assert (w + rest)[0] == w[0];
      assert (w + rest)[1..] == w[1..] + rest;
      WordLengthOf(w[1..], rest);
    }
  }

  /** Whitespace in front of the text adds no word. */
  lemma WordsSkipSpace(g: string, s: string)
    requires AllSpace(g)
    ensures Words(g + s) == Words(s)
  {
    LeadingSpacesAfter(g, s);
    assert LStrip(g + s) == LStrip(s);
  }

  /** A run of non-whitespace that starts the text and ends at whitespace (or the end) is the first word. */
  lemma WordsFirstWord(w: string, rest: string)
    requires w != [] && NoSpace(w) && (rest == [] || IsSpace(rest[0]))
    ensures Words(w + rest) == [w] + Words(rest)
  {
    var t := w + rest;
    assert t[0] == w[0];
    assert LStrip(t) == t;
    WordLengthOf(w, rest);
    assert t[..|w|] == w;
    assert t[|w|..] == rest;
  }

  /** `' '.join(ws).split() == ws` for non-empty words without whitespace. */
  lemma {:induction false} WordsJoin(ws: seq<string>)
    requires forall i :: 0 <= i < |ws| ==> ws[i] != [] && NoSpace(ws[i])
    ensures Words(Join(ws, ' ')) == ws
    decreases |ws|
  {
    if |ws| > 1 {
      var rest := Join(ws[1..], ' ');
      assert Join(ws, ' ') == ws[0] + [' '] + rest;
      assert ws[0] + [' '] + rest == ws[0] + ([' '] + rest);
      var w := ws[0];
      var tail := [' '] + rest;
      WordsFirstWord(w, tail);
      WordsSkipSpace([' '], rest);
      WordsJoin(ws[1..]);
      calc {
        Words(Join(ws, ' '));
        Words(w + tail);
        [w] + Words(tail);
        [w] + ws[1..];
        ws;
      }
    }
  }

  // ---------------------------------------------------------------- str(n) and int(s)

  function DigitChar(d: nat): (c: char)
    requires d < 10
    ensures IsDigit(c)
  {
    (48 + d) as char
  }

  function DigitValue(c: char): (d: nat)
    requires IsDigit(c)
    ensures d < 10 && DigitChar(d) == c
  {
    (c as int - 48)
  }

  /** `str(n)` for n >= 0: decimal digits without leading zeros. */
  function NatToString(n: nat): (s: string)
    ensures s != [] && AllDigits(s)
    ensures s[0] == '0' ==> n == 0 && s == "0"
    decreases n
  {
    if n < 10 then [DigitChar(n)] else NatToString(n / 10) + [DigitChar(n % 10)]
  }

  /** `str(n)` */
  function IntToString(n: int): (s: string)
    ensures s != [] && NoSpace(s)
    ensures n >= 0 ==> AllDigits(s)
    ensures n < 0 ==> s[0] == '-'
  {
    if n < 0 then "-" + NatToString(-n) else NatToString(n)
  }

  /** The value of a string of decimal digits (leading zeros allowed). */
  function DigitsValue(s: string): nat
    requires AllDigits(s)
  {
    if s == [] then 0 else DigitsValue(s[..|s| - 1]) * 10 + DigitValue(s[|s| - 1])
  }

  /** A sign-less integer literal as Python's `int()` reads it after stripping. */
  function ParseUnsigned(t: string): Option<nat>
  {
    if t != [] && AllDigits(t) then Some(DigitsValue(t)) else None
  }

  /**
   * `int(s)` on a string: surrounding whitespace, an optional sign followed by optional
   * whitespace, then one or more decimal digits; anything else raises, which is `None` here.
   */
  function ParseInt(s: string): (r: Option<int>)
    ensures r.Some? ==> Strip(s) != []
  {
    var t := Strip(s);
    if t != [] && t[0] == '-' then
      match ParseUnsigned(LStrip(t[1..]))
      case Some(v) => Some(0 - v as int)
      case None => None
    else if t != [] && t[0] == '+' then
      match ParseUnsigned(LStrip(t[1..]))
      case Some(v) => Some(v)
      case None => None
    else
      match ParseUnsigned(t)
      case Some(v) => Some(v)
      case None => None
  }

  /**
   * `t` is an integer literal whose digits start at index `d` and whose value is `n`:
   * either `d` is 0, or `t` starts with a sign followed by whitespace up to `d`.
   */
  predicate IntLiteral(t: string, d: nat, n: int)
  {
    d < |t| && AllDigits(t[d..]) &&
    (d == 0 || ((t[0] == '+' || t[0] == '-') && forall i :: 1 <= i < d ==> IsSpace(t[i]))) &&
    n == (if d > 0 && t[0] == '-' then 0 - DigitsValue(t[d..]) as int else DigitsValue(t[d..]))
  }

  lemma {:induction false} LeadingSpacesExact(x: string, j: nat)
    requires j <= |x| && (forall i :: 0 <= i < j ==> IsSpace(x[i])) && (j < |x| ==> !IsSpace(x[j]))
    ensures LeadingSpaces(x) == j
    decreases j
  {
    if j > 0 {
      LeadingSpacesExact(x[1..], j - 1);
    }
  }

  lemma ParseIntIsLiteral(s: string, n: int)
    requires ParseInt(s) == Some(n)
    ensures IntLiteral(Strip(s), if Strip(s)[0] == '-' || Strip(s)[0] == '+' then 1 + LeadingSpaces(Strip(s)[1..]) else 0, n)
  {
    var t := Strip(s);
    if t[0] == '-' || t[0] == '+' {
      var d := 1 + LeadingSpaces(t[1..]);
      assert t[d..] == LStrip(t[1..]);
    } else {
      assert t[0..] == t;
    }
  }

  lemma LiteralParses(s: string, d: nat, n: int)
    requires IntLiteral(Strip(s), d, n)
    ensures ParseInt(s) == Some(n)
  {
    var t := Strip(s);
    if d == 0 {
      assert t[0..] == t;
      assert IsDigit(t[0..][0]);
    } else {
      assert IsDigit(t[d..][0]);
      LeadingSpacesExact(t[1..], d - 1);
      assert LStrip(t[1..]) == t[d..];
    }
  }

  /** `int(s)` gives `n` exactly when the stripped text is an integer literal of value `n`. */
  lemma ParseIntSpec(s: string, n: int)
    ensures ParseInt(s) == Some(n) <==> exists d: nat :: IntLiteral(Strip(s), d, n)
  {
    if ParseInt(s) == Some(n) {
      ParseIntIsLiteral(s, n);
    }
    if exists d: nat :: IntLiteral(Strip(s), d, n) {
      var d: nat :| IntLiteral(Strip(s), d, n);
      LiteralParses(s, d, n);
    }
  }

  lemma {:induction false} NatToStringValue(n: nat)
    ensures DigitsValue(NatToString(n)) == n
    decreases n
  {
    var s := NatToString(n);
    if n >= 10 {
      NatToStringValue(n / 10);
      assert s[..|s| - 1] == NatToString(n / 10);
    }
  }

  /** `int(str(n)) == n`: the string form of an integer reads back as that integer. */
  lemma IntToStringRoundTrip(n: int)
    ensures ParseInt(IntToString(n)) == Some(n)
  {
    var s := IntToString(n);
    assert Strip(s) == s;
    if n < 0 {
      assert s[1..] == NatToString(-n);
      NatToStringValue(-n);
      assert IntLiteral(s, 1, n);
    } else {
      assert s[0..] == s;
      NatToStringValue(n);
      assert IntLiteral(s, 0, n);
    }
    ParseIntSpec(s, n);
  }

  /** Distinct integers have distinct string forms. */
  lemma IntToStringInjective(m: int, n: int)
    ensures IntToString(m) == IntToString(n) ==> m == n
  {
    if IntToString(m) == IntToString(n) {
      IntToStringRoundTrip(m);
      IntToStringRoundTrip(n);
    }
  }
}
