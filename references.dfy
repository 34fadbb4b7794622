/**
 * The bibliography parser and citation linker of the COVID-19 ensemble presentation and
 * poster (`ExtractReferencesDict`, `FixReferences`; the two scripts hold identical copies).
 *
 * The parser reads a numbered reference block line by line. A line whose text before its
 * first '.' reads as a non-zero integer n contributes the entry str(n) -> (link, title);
 * the link is the first whitespace-separated word of the form "<http...>" without its
 * angle brackets (or "" with a printed warning), the title the rest of the line with
 * every '<' and '>' deleted. The linker replaces each "[d]" or "[dd]" of a text by an
 * HTML anchor carrying that reference's link and title.
 */
module References {
  import opened Wrappers
  import opened PyStrings

  /** The (link, title) pair stored for one citation number. */
  datatype Reference = Reference(link: string, title: string)

  /** What one numbered line contributes: its key str(n) and its reference. */
  datatype Entry = Entry(key: string, ref: Reference)

  // ---------------------------------------------------------------- one line

  /** A word that starts with "<http" and ends with ">". */
  predicate IsLinkToken(w: string)
  {
    |w| >= 5 && w[..5] == "<http" && w[|w| - 1] == '>'
  }

  /** The position of the first link word, or |ws| when there is none. */
  function FirstLinkIndex(ws: seq<string>): (i: nat)
    ensures i <= |ws|
    ensures i < |ws| ==> IsLinkToken(ws[i])
    ensures forall k :: 0 <= k < i ==> !IsLinkToken(ws[k])
  {
    if ws == [] then 0
    else if IsLinkToken(ws[0]) then 0
    else 1 + FirstLinkIndex(ws[1..])
  }

  /** A link word without its outer angle brackets. */
  function LinkOf(token: string): (link: string)
    requires IsLinkToken(token)
    ensures |link| == |token| - 2 && |link| >= 4 && link[..4] == "http"
  {
    assert token[1..|token| - 1][..4] == token[..5][1..];
    token[1..|token| - 1]
  }

  /** The link a line's words give: the first link word unbracketed, or "" if there is none. */
  function FirstLink(ws: seq<string>): (link: string)
    ensures link == "" <==> forall k :: 0 <= k < |ws| ==> !IsLinkToken(ws[k])
    ensures link != "" ==> |link| >= 4 && link[..4] == "http"
  {
    var i := FirstLinkIndex(ws);
    if i < |ws| then LinkOf(ws[i]) else ""
  }

  /** The displayed title: the line text with every '<' and '>' deleted, nothing else changed. */
  function TitleOf(lineText: string): (title: string)
    ensures '<' !in title && '>' !in title
    ensures forall c :: c != '<' && c != '>' ==> (c in title <==> c in lineText)
    ensures '<' !in lineText && '>' !in lineText ==> title == lineText
  {
    Remove(Remove(lineText, '<'), '>')
  }

  /**
   * Deleting the brackets keeps every other character, in order and as often as it occurs:
   * the title of a concatenation is the concatenation of the titles, and a single
   * character is dropped exactly when it is a bracket.
   */
  lemma TitleOfConcat(x: string, y: string)
    ensures TitleOf(x + y) == TitleOf(x) + TitleOf(y)
  {
    RemoveConcat(x, y, '<');
    RemoveConcat(Remove(x, '<'), Remove(y, '<'), '>');
  }

  lemma TitleOfChar(c: char)
    ensures TitleOf([c]) == if c == '<' || c == '>' then [] else [c]
  {
    RemoveChar(c, '<');
    RemoveChar(c, '>');
    assert Remove([], '>') == [];
  }

  /** A bracketed journal name loses its brackets and nothing else. */
  lemma TitleOfBracketed(before: string, journal: string, after: string)
    requires '<' !in before && '>' !in before
    requires '<' !in journal && '>' !in journal
    requires '<' !in after && '>' !in after
    ensures TitleOf(before + ['<'] + journal + ['>'] + after) == before + journal + after
  {
    var t2 := ['<'] + (journal + (['>'] + after));
    var whole := before + ['<'] + journal + ['>'] + after;
    assert whole == before + t2;
    TitleOfBracketTail(journal, after);
    TitleOfConcat(before, t2);
    assert TitleOf(before) == before;
    assert TitleOf(whole) == before + (journal + after);
    AppendAssoc(before, journal, after);
  }

  lemma TitleOfBracketTail(journal: string, after: string)
    requires '<' !in journal && '>' !in journal
    requires '<' !in after && '>' !in after
    ensures TitleOf(['<'] + (journal + (['>'] + after))) == journal + after
  {
    var t4 := ['>'] + after;
    var t3 := journal + t4;
    TitleOfChar('>');
    TitleOfConcat(['>'], after);
    assert TitleOf(t4) == after;
    TitleOfConcat(journal, t4);
    assert TitleOf(t3) == journal + after;
    TitleOfChar('<');
    TitleOfConcat(['<'], t3);
  }

  lemma TitleOfExample()
    ensures TitleOf("2020<J>.") == "2020J."
  {
    TitleOfBracketed("2020", "J", ".");
    assert "2020" + ['<'] + "J" + ['>'] + "." == "2020<J>.";
    assert "2020" + "J" + "." == "2020J.";
  }

  /** The number a line starts with, as `int(Line.split('.')[0])` reads it. */
  function LineNumber(line: string): Option<int>
  {
    ParseInt(Split(line, '.')[0])
  }

  /** The entry one line contributes, if any. */
  function LineEntry(line: string): Option<Entry>
  {
    match LineNumber(line)
    case None => None
    case Some(number) =>
      if number == 0 then None
      else
        var numberStr := IntToString(number);
        var lineText := Strip(SliceFrom(line, 1 + |numberStr|));
        Some(Entry(numberStr, Reference(FirstLink(Words(lineText)), TitleOf(lineText))))
  }

  /**
   * A line contributes exactly when its number reads as a non-zero integer n; its key is
   * then str(n), its title holds no angle bracket and its link is "" or starts with "http".
   */
  lemma LineEntryShape(line: string)
    ensures LineEntry(line).Some? <==> LineNumber(line).Some? && LineNumber(line).value != 0
    ensures LineEntry(line).Some? ==>
      LineNumber(line).Some? && LineEntry(line).value.key == IntToString(LineNumber(line).value)
    ensures LineEntry(line).Some? ==>
      '<' !in LineEntry(line).value.ref.title && '>' !in LineEntry(line).value.ref.title
    ensures LineEntry(line).Some? ==>
      var link := LineEntry(line).value.ref.link;
      link == "" || (|link| >= 4 && link[..4] == "http")
  {
  }

  // ---------------------------------------------------------------- the whole block

  /** What each line contributes, in order. */
  function LineEntries(lines: seq<string>): (es: seq<Option<Entry>>)
    ensures |es| == |lines|
  {
    if lines == [] then [] else LineEntries(lines[..|lines| - 1]) + [LineEntry(lines[|lines| - 1])]
  }

  /** The entry at position i is the one line i contributes. */
  lemma {:induction false} LineEntriesAt(lines: seq<string>, i: nat)
    requires i < |lines|
    ensures LineEntries(lines)[i] == LineEntry(lines[i])
    decreases |lines|
  {
    if i < |lines| - 1 {
      LineEntriesAt(lines[..|lines| - 1], i);
    }
  }

  /** The dictionary after the given entries, each overwriting an earlier one with the same key. */
  function DictOf(es: seq<Option<Entry>>): (d: map<string, Reference>)
    ensures |d| <= |es|
  {
    if es == [] then map[]
    else
      var d := DictOf(es[..|es| - 1]);
      match es[|es| - 1]
      case None => d
      case Some(e) => d[e.key := e.ref]
  }

  /** The dictionary `ExtractReferencesDict` builds from the given lines. */
  function RefDictOf(lines: seq<string>): (d: map<string, Reference>)
    ensures |d| <= |lines|
  {
    DictOf(LineEntries(lines))
  }

  /** The warning printed for a numbered line without a link. */
  function CheckMessage(line: string): string
  {
    "Check Reference :" + line
  }

  /** The warnings printed for the given lines, given what each line contributes. */
  function WarningsOf(lines: seq<string>, es: seq<Option<Entry>>): seq<string>
    requires |es| == |lines|
  {
    if lines == [] then []
    else
      var ms := WarningsOf(lines[..|lines| - 1], es[..|es| - 1]);
      match es[|es| - 1]
      case Some(e) => if e.ref.link == "" then ms + [CheckMessage(lines[|lines| - 1])] else ms
      case None => ms
  }

  /** The warnings printed while reading the given lines, in order. */
  function CheckMessages(lines: seq<string>): seq<string>
  {
    WarningsOf(lines, LineEntries(lines))
  }

  /** One line is warned about, once, exactly when it contributes an entry without a link. */
  lemma LineWarning(line: string)
    ensures CheckMessages([line])
      == if LineEntry(line).Some? && LineEntry(line).value.ref.link == "" then [CheckMessage(line)] else []
  {
    assert [line][..0] == [];
    var es := LineEntries([line]);
    assert es == [LineEntry(line)];
    assert es[..0] == [];
    assert WarningsOf([], []) == [];
    assert CheckMessages([line]) == WarningsOf([line], es);
    assert WarningsOf([line], es) == match es[0] case Some(e) => if e.ref.link == "" then [CheckMessage(line)] else [] case None => [];
  }

  lemma CheckMessagesSnoc(lines: seq<string>, line: string)
    ensures CheckMessages(lines + [line]) == CheckMessages(lines) + CheckMessages([line])
  {
    var all := lines + [line];
    assert all[..|all| - 1] == lines;
    var es := LineEntries(all);
    assert es[..|es| - 1] == LineEntries(lines);
    LineWarning(line);
  }

  /** The warnings for a block are those of its first lines followed by those of the rest. */
  lemma {:induction false} CheckMessagesConcat(a: seq<string>, b: seq<string>)
    ensures CheckMessages(a + b) == CheckMessages(a) + CheckMessages(b)
    decreases |b|
  {
    if b == [] {
      assert a + b == a;
    } else {
      var init := b[..|b| - 1];
      var last := b[|b| - 1];
      assert a + b == (a + init) + [last];
      assert b == init + [last];
      CheckMessagesSnoc(a + init, last);
      CheckMessagesConcat(a, init);
      CheckMessagesSnoc(init, last);
      AppendAssoc(CheckMessages(a), CheckMessages(init), CheckMessages([last]));
    }
  }

  /**
   * `ExtractReferencesDict`: the dictionary built from the lines of the block, plus the
   * warnings it prints (returned here instead of printed).
   */
  method ExtractReferencesDict(referenceText: string) returns (refDict: map<string, Reference>, warnings: seq<string>)
    ensures refDict == RefDictOf(Split(referenceText, '\n'))
    ensures warnings == CheckMessages(Split(referenceText, '\n'))
  {
    var lines := Split(referenceText, '\n');
    refDict, warnings := ReadReferenceLines(lines);
  }

  /** The loop of `ExtractReferencesDict` over the lines of the block. */
  method ReadReferenceLines(lines: seq<string>) returns (refDict: map<string, Reference>, warnings: seq<string>)
    ensures refDict == RefDictOf(lines)
    ensures warnings == CheckMessages(lines)
  {
    refDict, warnings := map[], [];
    ghost var es: seq<Option<Entry>> := [];
    for n := 0 to |lines|
      invariant |es| == n
      invariant es == LineEntries(lines[..n])
      invariant refDict == DictOf(es)
      invariant warnings == WarningsOf(lines[..n], es)
    {
      var line := lines[n];
      assert lines[..n + 1][..n] == lines[..n] && lines[..n + 1][n] == line;
      var entry := ReadReferenceLine(line);
      assert LineEntries(lines[..n + 1]) == es + [entry];
      if entry.Some? {
        if entry.value.ref.link == "" {
          warnings := warnings + [CheckMessage(line)];
        }
        refDict := refDict[entry.value.key := entry.value.ref];
      }
      assert (es + [entry])[..n] == es;
      es := es + [entry];
    }
    assert lines[..|lines|] == lines;
  }

  /**
   * One pass of that loop: the number before the first '.', then, for a non-zero number,
   * the text after it, its title and the first link word (found by a scan that stops there).
   */
  method ReadReferenceLine(line: string) returns (entry: Option<Entry>)
    ensures entry == LineEntry(line)
  {
    var number := ParseInt(Split(line, '.')[0]);
    assert number == LineNumber(line);
    if number.Some? && number.value != 0 {
      var numberStr := IntToString(number.value);
      var lineText := Strip(SliceFrom(line, 1 + |numberStr|));
      assert LineEntry(line) == Some(Entry(numberStr, Reference(FirstLink(Words(lineText)), TitleOf(lineText))));
      var replacedLineText := Remove(Remove(lineText, '<'), '>');
      var lineComponents := Words(lineText);
      var lineLink := ScanForLink(lineComponents);
      entry := Some(Entry(numberStr, Reference(lineLink, replacedLineText)));
    } else {
      LineEntryUnnumbered(line);
      entry := None;
    }
  }

  /**
   * A line "n. text" with n non-zero is read as the entry str(n) -> (link, title), where
   * the link is the first link word of the stripped text and the title is that text
   * without its brackets.
   */
  lemma NumberedLineEntry(n: int, rest: string)
    requires n != 0
    ensures var text := Strip(rest);
      LineEntry(IntToString(n) + "." + rest)
        == Some(Entry(IntToString(n), Reference(FirstLink(Words(text)), TitleOf(text))))
  {
    var numberStr := IntToString(n);
    var line := numberStr + "." + rest;
    NumberedLineNumber(n, rest);
    assert SliceFrom(line, 1 + |numberStr|) == rest by {
      assert line[1 + |numberStr|..] == rest;
    }
  }

  /** The number of the line "n. text" is n. */
  lemma NumberedLineNumber(n: int, rest: string)
    ensures LineNumber(IntToString(n) + "." + rest) == Some(n)
  {
    var numberStr := IntToString(n);
    var line := numberStr + "." + rest;
    assert '.' !in numberStr by {
      if n < 0 {
        assert numberStr[1..] == NatToString(-n);
      }
    }
    SplitFirst(line, '.');
    var first := Split(line, '.')[0];
    assert line[|numberStr|] == '.';
    assert first == numberStr;
    IntToStringRoundTrip(n);
  }

  /** A line whose number does not read, or reads as 0, contributes nothing. */
  lemma LineEntryUnnumbered(line: string)
    requires LineNumber(line).None? || LineNumber(line).value == 0
    ensures LineEntry(line) == None
  {
  }

  /** The scan over a line's words that keeps the first link word, unbracketed, or "". */
  method ScanForLink(lineComponents: seq<string>) returns (lineLink: string)
    ensures lineLink == FirstLink(lineComponents)
  {
    lineLink := "";
    var j := 0;
    while j < |lineComponents|
      invariant j <= FirstLinkIndex(lineComponents)
      invariant lineLink == ""
    {
      if IsLinkToken(lineComponents[j]) {
        // the first link word wins
        lineLink := LinkOf(lineComponents[j]);
        break;
      }
      j := j + 1;
    }
  }

  // ---------------------------------------------------------------- properties of the dictionary

  /** A key is present exactly when some entry carries it. */
  lemma {:induction false} DictKeys(es: seq<Option<Entry>>, k: string)
    ensures k in DictOf(es) <==> exists i :: 0 <= i < |es| && es[i].Some? && es[i].value.key == k
    decreases |es|
  {
    if es != [] {
      var init := es[..|es| - 1];
      DictKeys(init, k);
      if k in DictOf(init) {
        var i :| 0 <= i < |init| && init[i].Some? && init[i].value.key == k;
        assert es[i] == init[i];
      }
      if exists i :: 0 <= i < |es| && es[i].Some? && es[i].value.key == k {
        var i :| 0 <= i < |es| && es[i].Some? && es[i].value.key == k;
        if i < |init| {
          assert init[i] == es[i];
        }
      }
    }
  }

  /** The stored reference is the one from the last entry carrying that key. */
  lemma {:induction false} LastEntryWins(es: seq<Option<Entry>>, i: nat)
    requires i < |es| && es[i].Some?
    requires forall j :: i < j < |es| && es[j].Some? ==> es[j].value.key != es[i].value.key
    ensures es[i].value.key in DictOf(es) && DictOf(es)[es[i].value.key] == es[i].value.ref
    decreases |es|
  {
    var init := es[..|es| - 1];
    if i < |es| - 1 {
      assert init[i] == es[i];
      forall j | i < j < |init| && init[j].Some?
        ensures init[j].value.key != init[i].value.key
      {
        assert init[j] == es[j];
      }
      LastEntryWins(init, i);
    }
  }

  /** Every key is str(n) of a non-zero integer n: keys are canonical decimal strings. */
  lemma {:induction false} KeysAreCanonical(lines: seq<string>, k: string)
    requires k in RefDictOf(lines)
    ensures exists n :: n != 0 && k == IntToString(n)
  {
    DictKeys(LineEntries(lines), k);
    var i :| 0 <= i < |lines| && LineEntries(lines)[i].Some? && LineEntries(lines)[i].value.key == k;
    LineEntriesAt(lines, i);
    LineEntryShape(lines[i]);
    assert k == IntToString(LineNumber(lines[i]).value);
  }

  /** A zero-padded number such as "05" is never a key. */
  lemma {:induction false} ZeroPaddedIsNeverAKey(lines: seq<string>, k: string)
    requires |k| >= 2 && k[0] == '0'
    ensures k !in RefDictOf(lines)
  {
    if k in RefDictOf(lines) {
      KeysAreCanonical(lines, k);
    }
  }

  // ---------------------------------------------------------------- the linker

  /** One to two decimal digits: the number inside a citation the linker recognises. */
  predicate IsCitationNumber(number: string)
  {
    1 <= |number| <= 2 && AllDigits(number)
  }

  /** The length of the match of the pattern `\[\d\]|\[\d\d\]` at the start of s; 0 when there is none. */
  function CitationMatchLength(s: string): (n: nat)
    ensures n == 0 || n == 3 || n == 4
    ensures n > 0 ==> n <= |s| && s[0] == '[' && s[n - 1] == ']' && IsCitationNumber(s[1..n - 1])
  {
    if |s| >= 3 && s[0] == '[' && IsDigit(s[1]) && s[2] == ']' then 3
    else if |s| >= 4 && s[0] == '[' && IsDigit(s[1]) && IsDigit(s[2]) && s[3] == ']' then 4
    else 0
  }

  /** A text cut into the pieces the substitution sees: copied characters and matched citations. */
  datatype CitationPiece = Char(c: char) | Citation(number: string)

  function PieceText(p: CitationPiece): string
  {
    match p
    case Char(c) => [c]
    case Citation(number) => "[" + number + "]"
  }

  /** The length a piece's match has: 0 for a copied character. */
  function PieceMatchLength(p: CitationPiece): nat
  {
    match p
    case Char(_) => 0
    case Citation(number) => |number| + 2
  }

  /** The text the pieces came from. */
  function Unparse(ps: seq<CitationPiece>): string
  {
    if ps == [] then [] else PieceText(ps[0]) + Unparse(ps[1..])
  }

  /**
   * The left-to-right, non-overlapping matches of the pattern: at every piece boundary the
   * pattern is tried, a match becomes a citation and the scan resumes after it, otherwise
   * one character is copied.
   */
  function CitationPieces(text: string): (ps: seq<CitationPiece>)
    ensures Unparse(ps) == text
    ensures forall i :: 0 <= i < |ps| && ps[i].Citation? ==> IsCitationNumber(ps[i].number)
    decreases |text|
  {
    if text == [] then []
    else
      var n := CitationMatchLength(text);
      var m := if n == 0 then 1 else n;
      var p := if n == 0 then Char(text[0]) else Citation(text[1..n - 1]);
      var rest := CitationPieces(text[m..]);
      assert PieceText(p) == text[..m];
      UnparseCons(p, rest, text, m);
      NumbersCons(p, rest);
      [p] + rest
  }

  lemma UnparseCons(p: CitationPiece, rest: seq<CitationPiece>, text: string, m: nat)
    requires m <= |text| && PieceText(p) == text[..m] && Unparse(rest) == text[m..]
    ensures Unparse([p] + rest) == text
  {
    var ps := [p] + rest;
    assert ps[0] == p && ps[1..] == rest;
    assert Unparse(ps) == PieceText(p) + Unparse(rest);
    assert text[..m] + text[m..] == text;
  }

  lemma NumbersCons(p: CitationPiece, rest: seq<CitationPiece>)
    requires p.Citation? ==> IsCitationNumber(p.number)
    requires forall i :: 0 <= i < |rest| && rest[i].Citation? ==> IsCitationNumber(rest[i].number)
    ensures forall i :: 0 <= i < |[p] + rest| && ([p] + rest)[i].Citation? ==> IsCitationNumber(([p] + rest)[i].number)
  {
    assert forall k :: 1 <= k < |rest| + 1 ==> ([p] + rest)[k] == rest[k - 1];
  }

  /**
   * The scan is leftmost at every step: each piece starts exactly where the pattern was
   * tried, a copied character where it does not match, a citation of the matched length
   * where it does.
   */
  lemma {:induction false} CitationPiecesAreLeftmost(text: string, i: nat)
    requires i < |CitationPieces(text)|
    ensures CitationMatchLength(Unparse(CitationPieces(text)[i..])) == PieceMatchLength(CitationPieces(text)[i])
    decreases |text|
  {
    var ps := CitationPieces(text);
    var n := CitationMatchLength(text);
    var rest := text[if n == 0 then 1 else n..];
    assert ps[1..] == CitationPieces(rest);
    if i == 0 {
      assert ps[0..] == ps;
    } else {
      assert ps[i..] == ps[1..][i - 1..];
      CitationPiecesAreLeftmost(rest, i - 1);
    }
  }

  /** The HTML anchor that replaces a citation; the citation itself stays its visible text. */
  function Anchor(ref: Reference, citation: string): string
  {
    "<a href=\"" + ref.link + "\" title=\"" + ref.title + "\" target= \"_blank\">" + citation + "</a>"
  }

  /** Every citation among the pieces has an entry. */
  predicate AllCited(refDict: map<string, Reference>, ps: seq<CitationPiece>)
  {
    forall i :: 0 <= i < |ps| && ps[i].Citation? ==> ps[i].number in refDict
  }

  /**
   * The replacement text, piece by piece; a citation without an entry makes the lookup
   * raise, and the first such citation is the error.
   */
  function RenderCitations(refDict: map<string, Reference>, ps: seq<CitationPiece>): (r: Result<string, string>)
    ensures r.Success? <==> AllCited(refDict, ps)
    ensures r.Failure? ==> r.error !in refDict
    ensures r.Failure? ==> exists i :: 0 <= i < |ps| && ps[i] == Citation(r.error) && AllCited(refDict, ps[..i])
  {
    if ps == [] then Success([])
    else
      var rest := RenderCitations(refDict, ps[1..]);
      AllCitedSplit(refDict, ps);
      FailureShift(refDict, ps, if rest.Failure? then rest.error else "");
      match ps[0]
      case Char(c) =>
        (match rest
         case Success(t) => Success([c] + t)
         case Failure(k) => Failure(k))
      case Citation(number) =>
        if number !in refDict then
          assert ps[0] == Citation(number) && AllCited(refDict, ps[..0]);
          Failure(number)
        else
          match rest
          case Success(t) => Success(Anchor(refDict[number], "[" + number + "]") + t)
          case Failure(k) => Failure(k)
  }

  lemma AllCitedSplit(refDict: map<string, Reference>, ps: seq<CitationPiece>)
    requires ps != []
    ensures AllCited(refDict, ps) <==> (ps[0].Citation? ==> ps[0].number in refDict) && AllCited(refDict, ps[1..])
  {
    assert forall i :: 1 <= i < |ps| ==> ps[i] == ps[1..][i - 1];
  }

  /** A copied character renders as itself, whatever the dictionary. */
  lemma RenderChar(refDict: map<string, Reference>, c: char)
    ensures RenderCitations(refDict, [Char(c)]) == Success([c])
  {
    assert [Char(c)][1..] == [];
    assert RenderCitations(refDict, []) == Success([]);
    assert [c] + [] == [c];
  }

  /** A citation with an entry renders as its anchor, whose visible text is the citation itself. */
  lemma RenderCitation(refDict: map<string, Reference>, number: string)
    requires number in refDict
    ensures RenderCitations(refDict, [Citation(number)]) == Success(Anchor(refDict[number], "[" + number + "]"))
  {
    var anchor := Anchor(refDict[number], "[" + number + "]");
    assert [Citation(number)][1..] == [];
    assert RenderCitations(refDict, []) == Success([]);
    assert anchor + [] == anchor;
  }

  /**
   * The rewrite works piece by piece: two runs of pieces that render render, side by side,
   * as their concatenation. With `RenderChar`, `RenderCitation` and the scan's
   * `CitationPieces`/`CitationPiecesAreLeftmost` this fixes the output for every text.
   */
  lemma {:induction false} RenderCitationsConcat(refDict: map<string, Reference>, p: seq<CitationPiece>, q: seq<CitationPiece>)
    requires RenderCitations(refDict, p).Success? && RenderCitations(refDict, q).Success?
    ensures RenderCitations(refDict, p + q)
      == Success(RenderCitations(refDict, p).value + RenderCitations(refDict, q).value)
    decreases |p|
  {
    if p == [] {
      assert p + q == q;
      assert RenderCitations(refDict, p).value == [];
      assert [] + RenderCitations(refDict, q).value == RenderCitations(refDict, q).value;
    } else {
      var pq := p + q;
      assert pq[0] == p[0] && pq[1..] == p[1..] + q;
      AllCitedSplit(refDict, p);
      RenderCitationsConcat(refDict, p[1..], q);
      var a := RenderCitations(refDict, p[1..]).value;
      var b := RenderCitations(refDict, q).value;
      match p[0]
      case Char(c) =>
        assert RenderCitations(refDict, p).value == [c] + a;
        AppendAssoc([c], a, b);
      case Citation(number) =>
        var anchor := Anchor(refDict[number], "[" + number + "]");
        assert RenderCitations(refDict, p).value == anchor + a;
        AppendAssoc(anchor, a, b);
    }
  }

  /** A first uncited citation after the head, with the head cited, is the first one of the whole. */
  lemma FailureShift(refDict: map<string, Reference>, ps: seq<CitationPiece>, key: string)
    requires ps != []
    ensures (ps[0].Citation? ==> ps[0].number in refDict)
      && (exists i :: 0 <= i < |ps[1..]| && ps[1..][i] == Citation(key) && AllCited(refDict, ps[1..][..i]))
      ==> exists i :: 0 <= i < |ps| && ps[i] == Citation(key) && AllCited(refDict, ps[..i])
  {
    if (ps[0].Citation? ==> ps[0].number in refDict)
      && exists i :: 0 <= i < |ps[1..]| && ps[1..][i] == Citation(key) && AllCited(refDict, ps[1..][..i])
    {
      var i :| 0 <= i < |ps[1..]| && ps[1..][i] == Citation(key) && AllCited(refDict, ps[1..][..i]);
      assert ps[..i + 1][1..] == ps[1..][..i];
      AllCitedSplit(refDict, ps[..i + 1]);
      assert ps[i + 1] == Citation(key);
    }
  }

  /**
   * `FixReferences`: one `re.sub` pass over the text; it succeeds exactly when every
   * matched number is a key of the dictionary.
   */
  function FixReferences(refDict: map<string, Reference>, text: string): (r: Result<string, string>)
    ensures r.Success? <==> AllCited(refDict, CitationPieces(text))
    ensures r.Failure? ==> r.error !in refDict && IsCitationNumber(r.error)
  {
    RenderCitations(refDict, CitationPieces(text))
  }

  // ---------------------------------------------------------------- properties of the linker

  /** No position of the text starts a match. */
  predicate NoCitation(text: string)
  {
    forall i :: 0 <= i <= |text| ==> CitationMatchLength(text[i..]) == 0
  }

  lemma {:induction false} PlainTextIsOneCharPerPiece(text: string)
    requires NoCitation(text)
    ensures forall i :: 0 <= i < |CitationPieces(text)| ==> CitationPieces(text)[i].Char?
    decreases |text|
  {
    if text != [] {
      assert text[1..][0..] == text[1..] && text[0..] == text;
      assert forall i :: 0 <= i <= |text[1..]| ==> text[1..][i..] == text[i + 1..];
      PlainTextIsOneCharPerPiece(text[1..]);
    }
  }

  lemma {:induction false} RenderPlainPieces(refDict: map<string, Reference>, ps: seq<CitationPiece>)
    requires forall i :: 0 <= i < |ps| ==> ps[i].Char?
    ensures RenderCitations(refDict, ps) == Success(Unparse(ps))
    decreases |ps|
  {
    if ps != [] {
      RenderPlainPieces(refDict, ps[1..]);
    }
  }

  /** A text in which nothing matches comes back unchanged, whatever the dictionary. */
  lemma NoCitationUnchanged(refDict: map<string, Reference>, text: string)
    requires NoCitation(text)
    ensures FixReferences(refDict, text) == Success(text)
  {
    PlainTextIsOneCharPerPiece(text);
    RenderPlainPieces(refDict, CitationPieces(text));
  }

  /** A three-digit citation is not a match: "[100]" is copied unchanged. */
  lemma ThreeDigitCitationUnchanged(refDict: map<string, Reference>)
    ensures FixReferences(refDict, "[100]") == Success("[100]")
  {
    var t := "[100]";
    forall i | 0 <= i <= |t|
      ensures CitationMatchLength(t[i..]) == 0
    {
      if i < |t| {
        assert t[i..][0] == t[i];
      }
    }
    NoCitationUnchanged(refDict, t);
  }

  /**
   * A lone citation becomes exactly its anchor: the inserted anchor is not scanned again,
   * even when its link or title holds text of the form "[n]".
   */
  lemma SingleCitation(refDict: map<string, Reference>, number: string)
    requires IsCitationNumber(number) && number in refDict
    ensures FixReferences(refDict, "[" + number + "]") == Success(Anchor(refDict[number], "[" + number + "]"))
  {
    var t := "[" + number + "]";
    assert t[1..|t| - 1] == number;
    assert CitationMatchLength(t) == |t|;
    assert t[|t|..] == [];
    assert CitationPieces(t[|t|..]) == [];
    assert CitationPieces(t) == [Citation(number)];
    assert [Citation(number)][1..] == [];
    assert RenderCitations(refDict, []) == Success([]);
    var a := Anchor(refDict[number], t);
    assert a + [] == a;
    assert RenderCitations(refDict, [Citation(number)]) == Success(a);
  }

  /** A zero-padded citation such as "[05]" always raises against a parsed dictionary. */
  lemma ZeroPaddedCitationRaises(lines: seq<string>)
    ensures FixReferences(RefDictOf(lines), "[05]") == Failure("05")
  {
    var t := "[05]";
    assert t[1..3] == "05" && t[4..] == [];
    assert CitationPieces(t) == [Citation("05")];
    ZeroPaddedIsNeverAKey(lines, "05");
  }
}
