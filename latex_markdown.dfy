/**
 * `EnhanceMarkDown` of the 2019 conference presentation: every `~~~equation~~~` token in
 * a Markdown text becomes an inline PNG image of the typeset equation. An optional
 * `$size` at the end of the equation sets the image height.
 *
 * The text is read as Python's `re.sub(r'~~~.*?~~~', ...)` reads it. `Pieces` splits it,
 * left to right, into characters copied as they are and tokens, each the shortest match
 * within one line. `RenderPieces` replaces every token. The LaTeX renderer and the base64
 * encoder are one opaque `Renderer`.
 */
module LatexMarkdown {
  import opened Wrappers
  import opened PyStrings

  /** The default `Size` and `DPI` arguments. */
  const DefaultSize: int := 11
  const DefaultDpi: int := 300

  const Fence: string := "~~~"

  /** A character of the base64 alphabet, padding included. */
  predicate IsBase64Char(c: char)
  {
    ('A' <= c <= 'Z') || ('a' <= c <= 'z') || ('0' <= c <= '9') || c == '+' || c == '/' || c == '='
  }

  /** Text `base64.b64encode` can produce; in particular it holds no '"'. */
  type Base64 = s: string | forall i :: 0 <= i < |s| ==> IsBase64Char(s[i])

  /** The base64 text of the PNG that the LaTeX pane draws for (equation, size, dpi). */
  type Renderer = (string, int, int) -> Base64

  // ---------------------------------------------------------------- scanning

  /** A `~~~` starts at index k of t. */
  predicate FenceAt(t: string, k: int)
  {
    0 <= k && k + 3 <= |t| && t[k] == '~' && t[k + 1] == '~' && t[k + 2] == '~'
  }

  /** No newline among the first k characters of t. */
  predicate OneLine(t: string, k: int)
  {
    forall i :: 0 <= i < k && i < |t| ==> t[i] != '\n'
  }

  /**
   * Where the closing `~~~` of a token starts, in the text after the opening one:
   * the lazy `.*?` takes the first fence it reaches, and `.` stops at a newline.
   */
  function ClosingFence(t: string): (r: Option<nat>)
    ensures r.Some? ==> FenceAt(t, r.value) && OneLine(t, r.value)
    ensures r.Some? ==> forall k :: 0 <= k < r.value ==> !FenceAt(t, k)
    ensures r.None? ==> forall k :: FenceAt(t, k) ==> !OneLine(t, k)
    decreases |t|
  {
    if |t| < 3 then None
    else if FenceAt(t, 0) then Some(0)
    else if t[0] == '\n' then None
    else
      var r := ClosingFence(t[1..]);
      ShiftFence(t);
      if r.Some? then Some(r.value + 1) else None
  }

  /** Dropping the first character shifts fences and lines by one. */
  lemma ShiftFence(t: string)
    requires t != []
    ensures forall k :: 1 <= k ==> (FenceAt(t, k) <==> FenceAt(t[1..], k - 1))
    ensures forall k :: 1 <= k ==> (OneLine(t, k) <==> t[0] != '\n' && OneLine(t[1..], k - 1))
  {
    forall k | 1 <= k
      ensures FenceAt(t, k) <==> FenceAt(t[1..], k - 1)
    {
      if k + 3 <= |t| {
        assert t[1..][k - 1] == t[k] && t[1..][k] == t[k + 1] && t[1..][k + 1] == t[k + 2];
      }
    }
    forall k | 1 <= k
      ensures OneLine(t, k) <==> t[0] != '\n' && OneLine(t[1..], k - 1)
    {
      assert forall i :: 0 <= i < |t| - 1 ==> t[1..][i] == t[i + 1];
      if t[0] != '\n' && OneLine(t[1..], k - 1) {
        forall i | 0 <= i < k && i < |t|
          ensures t[i] != '\n'
        {
          if i > 0 {
            assert t[i] == t[1..][i - 1];
          }
        }
      }
    }
  }

  /** A token spelled out: the opening fence, the inner text, the closing fence, the rest. */
  lemma TokenSplit(s: string, j: nat)
    requires FenceAt(s, 0) && FenceAt(s[3..], j)
    ensures s == Fence + s[3..3 + j] + Fence + s[6 + j..]
  {
    assert s[..3] == Fence;
    assert s[3 + j..6 + j] == Fence by {
      assert s[3 + j..6 + j] == [s[3..][j], s[3..][j + 1], s[3..][j + 2]];
    }
    assert s == s[..3] + s[3..3 + j] + s[3 + j..6 + j] + s[6 + j..];
  }

  /** A piece of the scanned text: a character copied as it is, or a token's inner text. */
  datatype Piece = Plain(c: char) | Token(inner: string)

  /** The leftmost-first, non-overlapping matches of `~~~.*?~~~` and the characters between them. */
  function Pieces(s: string): (ps: seq<Piece>)
    ensures forall k :: 0 <= k < |ps| && ps[k].Token? ==> '\n' !in ps[k].inner
    decreases |s|
  {
    if s == [] then []
    else if FenceAt(s, 0) && ClosingFence(s[3..]).Some? then
      var j := ClosingFence(s[3..]).value;
      var rest := Pieces(s[6 + j..]);
      OneLineInner(s[3..], j);
      assert s[3..][..j] == s[3..3 + j];
      var token := Token(s[3..3 + j]);
      assert forall k :: 1 <= k < |rest| + 1 ==> ([token] + rest)[k] == rest[k - 1];
      [token] + rest
    else
      var rest := Pieces(s[1..]);
      assert forall k :: 1 <= k < |rest| + 1 ==> ([Plain(s[0])] + rest)[k] == rest[k - 1];
      [Plain(s[0])] + rest
  }

  lemma OneLineInner(t: string, j: nat)
    requires j <= |t| && OneLine(t, j)
    ensures '\n' !in t[..j]
  {
    assert forall i :: 0 <= i < j ==> t[..j][i] == t[i];
  }

  /** The text the pieces were read from. */
  function Unparse(ps: seq<Piece>): string
  {
    if ps == [] then []
    else
      var head := match ps[0] case Plain(c) => [c] case Token(inner) => Fence + inner + Fence;
      head + Unparse(ps[1..])
  }

  // ---------------------------------------------------------------- one token

  /** `EquationData[(SizeDataIndex+1):]`: the text after the first `$` (the whole text when there is none). */
  function SizeText(inner: string): string
  {
    inner[Find(inner, '$') + 1..]
  }

  /**
   * `MatchReplacer`'s choice of size and equation: the integer after the first `$` and the
   * text before it, or the default size and the whole text; each equation in `$` signs.
   * `None` is the `ValueError` `int()` raises on a size that is not an integer.
   */
  function SizeAndEquation(inner: string, size: int): (r: Option<(int, string)>)
    ensures '$' !in inner ==> r == Some((size, "$" + inner + "$"))
    ensures r.Some? ==> var eq := r.value.1;
      2 <= |eq| && eq[0] == '$' && eq[|eq| - 1] == '$' &&
      eq[1..|eq| - 1] <= inner && '$' !in eq[1..|eq| - 1]
    ensures r.Some? && '$' in inner ==> var k := |r.value.1| - 1;
      k <= |inner| && inner[k - 1] == '$' && ParseInt(inner[k..]) == Some(r.value.0)
    ensures r.None? <==> '$' in inner && ParseInt(SizeText(inner)).None?
  {
    var i := Find(inner, '$');
    if i != -1 then
      assert '$' in inner;
      var after := SizeText(inner);
      var n := ParseInt(after);
      if n.Some? then
        var eq := "$" + inner[..i] + "$";
        assert |eq| - 1 == i + 1 && inner[|eq| - 1..] == after;
        assert eq[1..|eq| - 1] == inner[..i];
        Some((n.value, eq))
      else None
    else
      assert '$' !in inner;
      var eq := "$" + inner + "$";
      assert eq[1..|eq| - 1] == inner;
      Some((size, eq))
  }

  const ImgPrefix: string := "<img src=\"data:image/png;base64,"

  /** `'<img src="data:image/png;base64,%s" height="%i"/>'` */
  function ImgTag(payload: Base64, height: int): (tag: string)
    ensures PayloadOf(tag) == Some(payload)
    ensures HeightOf(tag) == Some(height)
  {
    var head := ImgPrefix + payload;
    var tail := HeightAttr(height);
    PayloadReadBack(payload, tail);
    HeightReadBack(head, height);
    head + tail
  }

  /** `' height="%i"/>'`, the tag's closing attribute. */
  function HeightAttr(height: int): string
  {
    "\" height=\"" + IntToString(height) + "\"/>"
  }

  /** The replacement of one token, or `None` when its size does not parse. */
  function Replacement(inner: string, size: int, dpi: int, image: Renderer): (r: Option<string>)
    ensures r.Some? <==> SizeAndEquation(inner, size).Some?
    ensures r.Some? ==> var (height, equation) := SizeAndEquation(inner, size).value;
      PayloadOf(r.value) == Some(image(equation, height, dpi)) && HeightOf(r.value) == Some(height)
  {
    match SizeAndEquation(inner, size)
    case Some((height, equation)) => Some(ImgTag(image(equation, height, dpi), height))
    case None => None
  }

  /** Every token's size, if it has one, is an integer. */
  predicate SizesParse(ps: seq<Piece>, size: int)
  {
    forall k :: 0 <= k < |ps| && ps[k].Token? ==> SizeAndEquation(ps[k].inner, size).Some?
  }

  /** What one piece becomes: a plain character itself, a token its image tag. */
  function RenderPiece(p: Piece, size: int, dpi: int, image: Renderer): Option<string>
  {
    match p
    case Plain(c) => Some([c])
    case Token(inner) => Replacement(inner, size, dpi, image)
  }

  /**
   * Every token replaced, every other character copied; `None` as soon as one token fails,
   * so the rewrite fails exactly when some token's size is not an integer.
   */
  function RenderPieces(ps: seq<Piece>, size: int, dpi: int, image: Renderer): (r: Option<string>)
    ensures r.Some? <==> SizesParse(ps, size)
  {
    if ps == [] then Some([])
    else
      assert forall k :: 1 <= k < |ps| ==> ps[k] == ps[1..][k - 1];
      match RenderPiece(ps[0], size, dpi, image)
      case None => None
      case Some(h) =>
        match RenderPieces(ps[1..], size, dpi, image)
        case None => None
        case Some(rest) => Some(h + rest)
  }

  /** `EnhanceMarkDown(Text, Size, DPI)`: `None` (the raise) exactly when some token's size is not an integer. */
  function EnhanceMarkDown(text: string, size: int, dpi: int, image: Renderer): (r: Option<string>)
    ensures r.Some? <==> SizesParse(Pieces(text), size)
  {
    RenderPieces(Pieces(text), size, dpi, image)
  }

  // ---------------------------------------------------------------- reading an image tag back

  /** The `src` payload of an image tag: the text between the data-URI prefix and the next '"'. */
  function PayloadOf(tag: string): Option<string>
  {
    if |ImgPrefix| <= |tag| && tag[..|ImgPrefix|] == ImgPrefix then
      var rest := tag[|ImgPrefix|..];
      var q := Find(rest, '"');
      if q < 0 then None else Some(rest[..q])
    else None
  }

  /** Whatever precedes it, the closing attribute reads back as its height. */
  lemma HeightReadBack(head: string, height: int)
    ensures HeightOf(head + HeightAttr(height)) == Some(height)
  {
    var x := head + "\" height=\"";
    var digits := IntToString(height);
    assert head + HeightAttr(height) == x + digits + "\"/>";
    IntToStringChars(height);
    assert '"' !in digits;
    HeightOfClosed(x + digits);
    HeightAfterQuote(x, digits);
    IntToStringRoundTrip(height);
  }

  /** The height is read from the text after the tag's last '"'. */
  lemma HeightAfterQuote(x: string, digits: string)
    requires x != [] && x[|x| - 1] == '"' && '"' !in digits
    ensures HeightIn(x + digits) == ParseInt(digits)
  {
    var body := x + digits;
    LastFindAfter(x, digits, '"');
    assert body[LastFind(body, '"') + 1..] == digits;
  }

  /** The height of a closed tag is read after the last '"' of what precedes the `"/>`. */
  lemma HeightOfClosed(body: string)
    ensures HeightOf(body + "\"/>") == HeightIn(body)
  {
    var tag := body + "\"/>";
    assert tag[|tag| - 3..] == "\"/>";
    assert tag[..|tag| - 3] == body;
  }

  /** A base64 payload followed by a '"' reads back as itself. */
  lemma PayloadReadBack(payload: Base64, tail: string)
    requires tail != [] && tail[0] == '"'
    ensures PayloadOf((ImgPrefix + payload) + tail) == Some(payload)
  {
    var tag := ImgPrefix + payload + tail;
    assert tag[..|ImgPrefix|] == ImgPrefix;
    assert tag[|ImgPrefix|..] == payload + tail;
    assert !IsBase64Char('"');
    assert '"' !in payload;
    FindAfter(payload, tail, '"');
    assert (payload + tail)[..|payload|] == payload;
  }


  /** The index of the last `c` in `s`, or -1. */
  function LastFind(s: string, c: char): (r: int)
    ensures -1 <= r < |s|
    ensures r >= 0 ==> s[r] == c && c !in s[r + 1..]
    ensures r == -1 <==> c !in s
  {
    if s == [] then -1
    else if s[|s| - 1] == c then |s| - 1
    else
      var r := LastFind(s[..|s| - 1], c);
      assert s == s[..|s| - 1] + [s[|s| - 1]];
      r
  }

  /** The value of the `height` attribute that closes an image tag. */
  function HeightOf(tag: string): Option<int>
  {
    if |tag| >= 3 && tag[|tag| - 3..] == "\"/>" then HeightIn(tag[..|tag| - 3]) else None
  }

  /** The integer after the last '"' of a tag's text before its closing `"/>`. */
  function HeightIn(body: string): Option<int>
  {
    var q := LastFind(body, '"');
    if q < 0 then None else ParseInt(body[q + 1..])
  }

  // ---------------------------------------------------------------- lemmas: scanning

  lemma {:induction false} UnparseCons(p: Piece, ps: seq<Piece>)
    ensures Unparse([p] + ps) == Unparse([p]) + Unparse(ps)
  {
    assert ([p] + ps)[1..] == ps;
    assert [p][1..] == [];
  }

  /** Scanning loses nothing: the pieces spell out the text, so everything outside the tokens is copied. */
  lemma {:induction false} PiecesRoundTrip(s: string)
    ensures Unparse(Pieces(s)) == s
    decreases |s|
  {
    if s != [] {
      if FenceAt(s, 0) && ClosingFence(s[3..]).Some? {
        var j := ClosingFence(s[3..]).value;
        PiecesRoundTrip(s[6 + j..]);
        UnparseCons(Token(s[3..3 + j]), Pieces(s[6 + j..]));
        TokenSplit(s, j);
      } else {
        PiecesRoundTrip(s[1..]);
        UnparseCons(Plain(s[0]), Pieces(s[1..]));
        assert s == [s[0]] + s[1..];
      }
    }
  }

  predicate NoFence(s: string)
  {
    forall i :: 0 <= i < |s| ==> !FenceAt(s, i)
  }

  /**
   * The tokens are the leftmost, shortest matches: piece i is a token exactly when the text
   * it starts begins with "~~~" and closes on its line, and the token is then the text up
   * to the first closing "~~~"; a plain piece is the character it starts with.
   */
  lemma {:induction false} PiecesAreLeftmost(s: string, i: nat)
    requires i < |Pieces(s)|
    ensures var p := Pieces(s)[i]; var u := Unparse(Pieces(s)[i..]);
      (p.Token? <==> FenceAt(u, 0) && ClosingFence(u[3..]).Some?) &&
      (p.Token? ==> p.inner == u[3..3 + ClosingFence(u[3..]).value]) &&
      (p.Plain? ==> u != [] && p.c == u[0])
    decreases |s|
  {
    var ps := Pieces(s);
    if i == 0 {
      assert ps[0..] == ps;
      PiecesRoundTrip(s);
      assert Unparse(ps[0..]) == s;
      FirstPiece(s);
    } else {
      var rest := AfterFirstPiece(s);
      PiecesTail(s);
      assert ps[i] == Pieces(rest)[i - 1];
      assert ps[i..] == Pieces(rest)[i - 1..];
      PiecesAreLeftmost(rest, i - 1);
    }
  }

  /** The text left to scan once the first piece is taken. */
  function AfterFirstPiece(s: string): (rest: string)
    requires s != []
    ensures |rest| < |s|
  {
    if FenceAt(s, 0) && ClosingFence(s[3..]).Some? then s[6 + ClosingFence(s[3..]).value..] else s[1..]
  }

  lemma PiecesTail(s: string)
    requires s != []
    ensures Pieces(s)[1..] == Pieces(AfterFirstPiece(s))
  {
  }

  /** The first piece is a token exactly when the text starts with a match, and a character otherwise. */
  lemma FirstPiece(s: string)
    requires Pieces(s) != []
    ensures var p := Pieces(s)[0];
      (p.Token? <==> FenceAt(s, 0) && ClosingFence(s[3..]).Some?) &&
      (p.Token? ==> p.inner == s[3..3 + ClosingFence(s[3..]).value]) &&
      (p.Plain? ==> p.c == s[0])
  {
  }

  /** A text with no `~~~` in it is one plain piece per character. */
  lemma {:induction false} NoFencePlain(s: string)
    requires NoFence(s)
    ensures forall k :: 0 <= k < |Pieces(s)| ==> Pieces(s)[k].Plain?
    decreases |s|
  {
    if s != [] {
      assert !FenceAt(s, 0);
      ShiftFence(s);
      assert NoFence(s[1..]) by {
        forall i | 0 <= i < |s| - 1
          ensures !FenceAt(s[1..], i)
        {
          assert !FenceAt(s, i + 1);
        }
      }
      NoFencePlain(s[1..]);
    }
  }

  /** Plain pieces render as the text they spell. */
  lemma {:induction false} RenderPlain(ps: seq<Piece>, size: int, dpi: int, image: Renderer)
    requires forall k :: 0 <= k < |ps| ==> ps[k].Plain?
    ensures RenderPieces(ps, size, dpi, image) == Some(Unparse(ps))
  {
    if ps != [] {
      RenderPlain(ps[1..], size, dpi, image);
    }
  }

  /** One piece alone renders as that piece: a character as itself, a token as its image tag. */
  lemma RenderOne(p: Piece, size: int, dpi: int, image: Renderer)
    ensures RenderPieces([p], size, dpi, image) == RenderPiece(p, size, dpi, image)
    ensures p.Plain? ==> RenderPieces([p], size, dpi, image) == Some([p.c])
    ensures p.Token? ==> RenderPieces([p], size, dpi, image) == Replacement(p.inner, size, dpi, image)
  {
    assert [p][1..] == [];
    assert RenderPieces([], size, dpi, image) == Some([]);
    match RenderPiece(p, size, dpi, image)
    case Some(h) => assert h + [] == h;
    case None =>
  }

  /**
   * The rewrite works piece by piece: two runs of pieces that render render, side by side,
   * as their concatenation. With `RenderOne` and the scan's `PiecesRoundTrip` and
   * `PiecesAreLeftmost` this fixes the output for every text.
   */
  lemma {:induction false} RenderPiecesConcat(p: seq<Piece>, q: seq<Piece>, size: int, dpi: int, image: Renderer)
    requires RenderPieces(p, size, dpi, image).Some? && RenderPieces(q, size, dpi, image).Some?
    ensures RenderPieces(p + q, size, dpi, image)
      == Some(RenderPieces(p, size, dpi, image).value + RenderPieces(q, size, dpi, image).value)
    decreases |p|
  {
    var b := RenderPieces(q, size, dpi, image).value;
    if p == [] {
      assert p + q == q;
      assert RenderPieces(p, size, dpi, image).value == [];
      assert [] + b == b;
    } else {
      var pq := p + q;
      assert pq[0] == p[0] && pq[1..] == p[1..] + q;
      var h := RenderPiece(p[0], size, dpi, image).value;
      var a := RenderPieces(p[1..], size, dpi, image).value;
      assert RenderPieces(p, size, dpi, image).value == h + a;
      RenderPiecesConcat(p[1..], q, size, dpi, image);
      AppendAssoc(h, a, b);
    }
  }

  /** Text without a `~~~` comes back unchanged. */
  lemma NoFenceUnchanged(text: string, size: int, dpi: int, image: Renderer)
    requires NoFence(text)
    ensures EnhanceMarkDown(text, size, dpi, image) == Some(text)
  {
    NoFencePlain(text);
    RenderPlain(Pieces(text), size, dpi, image);
    PiecesRoundTrip(text);
  }

  /** After a stretch free of `~` and newlines, the closing fence is the first `~~~` that follows. */
  lemma ClosingAfterPlain(inner: string, rest: string)
    requires '~' !in inner && '\n' !in inner && FenceAt(rest, 0)
    ensures ClosingFence(inner + rest) == Some(|inner|)
  {
    var t := inner + rest;
    assert FenceAt(t, |inner|);
    assert OneLine(t, |inner|) by {
      assert forall i :: 0 <= i < |inner| ==> t[i] == inner[i];
    }
    assert forall i :: 0 <= i < |inner| ==> !FenceAt(t, i);
  }

  /** A text that is one token, free of `~` and newlines inside, scans as that one token. */
  lemma SingleTokenPieces(inner: string)
    requires '~' !in inner && '\n' !in inner
    ensures Pieces(Fence + inner + Fence) == [Token(inner)]
  {
    var s := Fence + inner + Fence;
    assert FenceAt(s, 0);
    assert s[3..] == inner + Fence;
    ClosingAfterPlain(inner, Fence);
    assert s[3..3 + |inner|] == inner;
    assert s[6 + |inner|..] == [];
  }

  /** ... and is replaced by that token's image. */
  lemma SingleToken(inner: string, size: int, dpi: int, image: Renderer)
    requires '~' !in inner && '\n' !in inner
    ensures EnhanceMarkDown(Fence + inner + Fence, size, dpi, image) == Replacement(inner, size, dpi, image)
  {
    SingleTokenPieces(inner);
    RenderOne(Token(inner), size, dpi, image);
  }

  // ---------------------------------------------------------------- lemmas: one token

  /** With a `$` the size is what follows the first one, and the equation what precedes it. */
  lemma DollarSplit(before: string, after: string, size: int)
    requires '$' !in before
    ensures SizeAndEquation(before + "$" + after, size)
      == match ParseInt(after) case Some(n) => Some((n, "$" + before + "$")) case None => None
  {
    var inner := before + "$" + after;
    assert inner[|before|] == '$' && inner[..|before|] == before && inner[|before| + 1..] == after;
    assert Find(inner, '$') == |before|;
  }

  /** A size written out as `str(n)` after the `$` is read back as n. */
  lemma SizeSuffix(before: string, n: int, size: int)
    requires '$' !in before
    ensures SizeAndEquation(before + "$" + IntToString(n), size) == Some((n, "$" + before + "$"))
  {
    DollarSplit(before, IntToString(n), size);
    IntToStringRoundTrip(n);
  }

  /** The presentation's own token `P_1^* = 16\%$13` is drawn 13 high, its equation the text before the `$`. */
  lemma PresentationSizeExample()
    ensures SizeAndEquation("P_1^* = 16\\%$13", DefaultSize) == Some((13, "$P_1^* = 16\\%$"))
  {
    var before, digits := "P_1^* = 16\\%", "13";
    var inner := before + "$" + digits;
    assert inner == "P_1^* = 16\\%$13";
    assert "$" + before + "$" == "$P_1^* = 16\\%$";
    assert digits == IntToString(13);
    SizeSuffix(before, 13, DefaultSize);
  }

  lemma IntToStringChars(n: int)
    ensures forall i :: 0 <= i < |IntToString(n)| ==> IntToString(n)[i] == '-' || IsDigit(IntToString(n)[i])
  {
    if n < 0 {
      assert forall i :: 1 <= i < |IntToString(n)| ==> IntToString(n)[i] == NatToString(-n)[i - 1];
    }
  }

  /** The last `c` of x + y is the end of x when x ends in `c` and y has none. */
  lemma {:induction false} LastFindAfter(x: string, y: string, c: char)
    requires x != [] && x[|x| - 1] == c && c !in y
    ensures LastFind(x + y, c) == |x| - 1
    decreases |y|
  {
    if y == [] {
      assert x + y == x;
    } else {
      assert (x + y)[..|x + y| - 1] == x + y[..|y| - 1];
      assert (x + y)[|x + y| - 1] == y[|y| - 1];
      assert y[|y| - 1] in y;
      assert forall ch :: ch in y[..|y| - 1] ==> ch in y;
      LastFindAfter(x, y[..|y| - 1], c);
    }
  }
}
