/** Wrapping the description of an option to a column of the help text (lib/cxxopts.hpp:1427-1493). */
module WordWrap {
  import opened Wrappers

  datatype HelpDetails = HelpDetails(desc: string, hasDefault: bool, default: string, isBoolean: bool)

  /** A range of characters whose end lies before its beginning. */
  datatype WrapError = BadRange

  /** A line of the help text, or, not kept, the line that a newline throws away. */
  datatype Piece = Piece(text: string, kept: bool)

  type Wrapped = Result<seq<Piece>, WrapError>

  /** The description with its default value; booleans that default to false do not show it. */
  function Described(o: HelpDetails): string {
    if o.hasDefault && (!o.isBoolean || o.default != "false") then o.desc + " (default: " + o.default + ")" else o.desc
  }

  /** The loop variables: the next character, the start of the pending line, the last space, and a count. */
  datatype Cursor = Cursor(at: nat, line: nat, space: nat, size: nat)

  const START := Cursor(0, 0, 0, 0)

  predicate InRange(desc: string, c: Cursor) {
    c.line <= c.at <= |desc| && c.space <= c.at
  }

  /** Where the last space is once the current character has been looked at. */
  function SpaceSeen(desc: string, c: Cursor): (space: nat)
    requires InRange(desc, c) && c.at < |desc|
    ensures space <= c.at
  {
    if desc[c.at] == ' ' then c.at else c.space
  }

  /** What one turn of the loop does: perhaps it ends a line. */
  datatype Turned = Turned(piece: Option<Piece>, next: Cursor)

  function Turn(desc: string, width: nat, c: Cursor): (r: Result<Turned, WrapError>)
    requires InRange(desc, c) && c.at < |desc|
    ensures r.Success? ==> InRange(desc, r.value.next) && r.value.next.at == c.at + 1
  {
    var space, next := SpaceSeen(desc, c), c.at + 1;
    if desc[c.at] == '\n' then Success(Turned(Some(Piece(desc[c.line..c.at], false)), Cursor(next, next, next, c.size)))
    else if c.size <= width then Success(Turned(None, Cursor(next, c.line, space, c.size + 1)))
    else if space == c.line then Success(Turned(Some(Piece(desc[c.line..next], true)), Cursor(next, next, next, 0)))
    else if space < c.line then Failure(BadRange)
    else Success(Turned(Some(Piece(desc[c.line..space], true)), Cursor(next, space + 1, space, 0)))
  }

  function Ahead(piece: Option<Piece>, rest: Wrapped): Wrapped {
    if rest.Failure? || piece.None? then rest else Success([piece.value] + rest.value)
  }

  /** The lines that are kept. */
  function Lines(pieces: seq<Piece>): (lines: seq<string>)
    ensures |lines| <= |pieces|
  {
    if pieces == [] then [] else (if pieces[0].kept then [pieces[0].text] else []) + Lines(pieces[1..])
  }

  predicate EndsKept(r: Wrapped) {
    r.Success? ==> r.value != [] && Lines(r.value) != []
  }

  /** The pieces the loop makes of the text from a cursor on. */
  function Wrap(desc: string, width: nat, c: Cursor): (r: Wrapped)
    requires InRange(desc, c)
    ensures EndsKept(r)
    decreases |desc| - c.at
  {
    if c.at == |desc| then Success([Piece(desc[c.line..], true)])
    else
      var turned :- Turn(desc, width, c);
      Ahead(turned.piece, Wrap(desc, width, turned.next))
  }

  function Spaces(n: nat): (s: string)
    ensures |s| == n && forall i :: 0 <= i < n ==> s[i] == ' '
  {
    seq(n, _ => ' ')
  }

  /** Lines one under the other, each but the first indented. */
  function Layout(lines: seq<string>, start: nat): string
    requires lines != []
    decreases |lines|
  {
    if |lines| == 1 then lines[0] else lines[0] + "\n" + Spaces(start) + Layout(lines[1..], start)
  }

  /** The help text of a description, or the failure of its loop. */
  ghost function Text(before: string, pieces: Wrapped, start: nat): Result<string, WrapError>
    requires EndsKept(pieces)
  {
    if pieces.Failure? then Failure(pieces.error) else Success(before + Layout(Lines(pieces.value), start))
  }

  /** The result once a line has been added to it, and the indentation of the next. */
  function EndLine(before: string, line: string, start: nat): string {
    before + line + "\n" + Spaces(start)
  }

  function Ended(before: string, piece: Option<Piece>, start: nat): string {
    if piece.None? || !piece.value.kept then before else EndLine(before, piece.value.text, start)
  }

  lemma AheadText(before: string, piece: Option<Piece>, rest: Wrapped, start: nat)
    requires EndsKept(rest)
    ensures EndsKept(Ahead(piece, rest))
    ensures Text(before, Ahead(piece, rest), start) == Text(Ended(before, piece, start), rest, start)
  {
    if rest.Success? && piece.Some? {
      var line, lines := piece.value.text, Lines(rest.value);
      assert ([piece.value] + rest.value)[1..] == rest.value && ([line] + lines)[1..] == lines;
      assert before + (line + "\n" + Spaces(start) + Layout(lines, start))
          == before + line + "\n" + Spaces(start) + Layout(lines, start);
      assert [] + lines == lines;
    }
  }

  /** The text so far and the lines to come make up the whole text. */
  ghost predicate Leads(desc: string, width: nat, start: nat, before: string, c: Cursor,
                        whole: Result<string, WrapError>) {
    InRange(desc, c) && Text(before, Wrap(desc, width, c), start) == whole
  }

  lemma LeadsOn(desc: string, width: nat, start: nat, before: string, c: Cursor, whole: Result<string, WrapError>)
    requires c.at < |desc| && Leads(desc, width, start, before, c, whole)
    ensures var turned := Turn(desc, width, c);
            if turned.Failure? then whole == Failure(turned.error)
            else Leads(desc, width, start, Ended(before, turned.value.piece, start), turned.value.next, whole)
  {
    var turned := Turn(desc, width, c);
    if turned.Success? {
      AheadText(before, turned.value.piece, Wrap(desc, width, turned.value.next), start);
    }
  }

  ghost function Formatted(desc: string, width: nat, start: nat): Result<string, WrapError> {
    Text("", Wrap(desc, width, START), start)
  }

  method FormatDescription(o: HelpDetails, start: nat, width: nat) returns (r: Result<string, WrapError>)
    ensures r == Formatted(Described(o), width, start)
  {
    var desc := o.desc;
    if o.hasDefault && (!o.isBoolean || o.default != "false") {
      desc := desc + (" (default: " + o.default + ")");
    }
    assert desc == Described(o);
    ghost var whole := Formatted(desc, width, start);
    var result := "";
    var current, startLine, lastSpace, size: nat := 0, 0, 0, 0;
    while current != |desc|
      invariant Leads(desc, width, start, result, Cursor(current, startLine, lastSpace, size), whole)
      decreases |desc| - current
    {
      ghost var before, c := result, Cursor(current, startLine, lastSpace, size);
      if desc[current] == ' ' {
        lastSpace := current;
      }
      if desc[current] == '\n' {
        startLine := current + 1;
        lastSpace := startLine;
      } else if size > width {
        if lastSpace == startLine {
          result := EndLine(result, desc[startLine..current + 1], start);
          startLine := current + 1;
          lastSpace := startLine;
        } else {
          if lastSpace < startLine {
            LeadsOn(desc, width, start, before, c, whole);
            return Failure(BadRange);
          }
          result := EndLine(result, desc[startLine..lastSpace], start);
          startLine := lastSpace + 1;
        }
        size := 0;
      } else {
        size := size + 1;
      }
      current := current + 1;
      assert result == Ended(before, Turn(desc, width, c).value.piece, start);
      assert Cursor(current, startLine, lastSpace, size) == Turn(desc, width, c).value.next;
      LeadsOn(desc, width, start, before, c, whole);
    }
    r := Success(result + desc[startLine..]);
  }

  /** The default is not shown if there is none, or if it is the false of a boolean. */
  lemma DescribedIff(o: HelpDetails)
    ensures Described(o) == o.desc <==> !o.hasDefault || (o.isBoolean && o.default == "false")
    ensures Described(o) == o.desc || Described(o) == o.desc + " (default: " + o.default + ")"
  {
    assert |o.desc + " (default: " + o.default + ")"| > |o.desc|;
  }

  // ----- How long a line gets ---------------------------------------------------------

  /** What bounds the pending line at every turn of the loop. */
  predicate Bounded(width: nat, c: Cursor) {
    && c.size <= width + 1 && c.at <= c.line + c.size + width + 1
    && (c.line <= c.space ==> c.at <= c.space + c.size)
  }

  lemma TurnBounded(desc: string, width: nat, c: Cursor)
    requires InRange(desc, c) && c.at < |desc| && Bounded(width, c) && Turn(desc, width, c).Success?
    ensures var turned := Turn(desc, width, c).value;
            Bounded(width, turned.next) && (turned.piece.Some? ==> |turned.piece.value.text| <= 2 * width + 2)
  {
  }

  lemma {:induction false} PiecesBounded(desc: string, width: nat, c: Cursor)
    requires InRange(desc, c) && Bounded(width, c) && Wrap(desc, width, c).Success?
    ensures forall piece <- Wrap(desc, width, c).value :: |piece.text| <= 2 * width + 2
    decreases |desc| - c.at
  {
    if c.at < |desc| {
      TurnBounded(desc, width, c);
      PiecesBounded(desc, width, Turn(desc, width, c).value.next);
    }
  }

  /** No line of an accepted description is longer than twice the width and two. */
  lemma NoLongLines(desc: string, width: nat)
    requires Wrap(desc, width, START).Success?
    ensures forall line <- Lines(Wrap(desc, width, START).value) :: |line| <= 2 * width + 2
  {
    PiecesBounded(desc, width, START);
    LinesArePieces(Wrap(desc, width, START).value);
  }

  lemma {:induction false} LinesArePieces(pieces: seq<Piece>)
    ensures forall line <- Lines(pieces) :: exists piece <- pieces :: piece.text == line
    decreases pieces
  {
    if pieces != [] {
      LinesArePieces(pieces[1..]);
      assert pieces[0] in pieces && forall piece <- pieces[1..] :: piece in pieces;
    }
  }

  // ----- Conservation of text ------------------------------------------------------------

  predicate StartsWord(text: string) {
    text != [] && text[0] != ' '
  }

  /** The pieces make up the text. A newline follows each piece that is lost, and there is no other newline; at most
      a space is dropped after a piece that is kept; `whole` says that no word is split between pieces. */
  predicate BrokenInto(text: string, pieces: seq<Piece>, whole: bool)
    requires pieces != []
    decreases |pieces|
  {
    && pieces[0].text <= text && '\n' !in pieces[0].text
    && var rest := text[|pieces[0].text|..];
       if |pieces| == 1 then pieces[0].kept && rest == []
       else if pieces[0].kept then
         || ((whole ==> !StartsWord(rest)) && BrokenInto(rest, pieces[1..], whole))
         || (rest != [] && rest[0] == ' ' && BrokenInto(rest[1..], pieces[1..], whole))
       else rest != [] && rest[0] == '\n' && BrokenInto(rest[1..], pieces[1..], whole)
  }

  lemma BreakAhead(text: string, piece: Piece, rest: Wrapped, cut: nat, whole: bool)
    requires rest.Success? && rest.value != [] && piece.text <= text && '\n' !in piece.text
    requires |piece.text| <= cut <= |text| && cut <= |piece.text| + 1
    requires if cut == |piece.text| then piece.kept && (whole ==> !StartsWord(text[cut..]))
             else text[|piece.text|] == if piece.kept then ' ' else '\n'
    requires BrokenInto(text[cut..], rest.value, whole)
    ensures BrokenInto(text, Ahead(Some(piece), rest).value, whole)
  {
    var pieces := [piece] + rest.value;
    assert pieces[1..] == rest.value;
    var tail := text[|piece.text|..];
    if cut == |piece.text| + 1 {
      assert tail[1..] == text[cut..];
    }
  }

  /** No newline from an index on. */
  predicate OneParagraph(desc: string, from: nat := 0) {
    forall i :: from <= i < |desc| ==> desc[i] != '\n'
  }

  /** A space or a newline. */
  predicate BlankIn(desc: string, i: nat, j: nat)
    requires j <= |desc|
  {
    exists k :: i <= k < j && (desc[k] == ' ' || desc[k] == '\n')
  }

  predicate SpaceIn(desc: string, i: nat, j: nat)
    requires j <= |desc|
  {
    exists k :: i <= k < j && desc[k] == ' '
  }

  /** No word is longer than width + 1. */
  ghost predicate ShortWords(desc: string, width: nat) {
    forall i, j :: 0 <= i && j == i + width + 2 && j <= |desc| ==> BlankIn(desc, i, j)
  }

  /** The remembered space is the last one of the pending line, or lies outside it, or is its first place. */
  predicate Tracks(desc: string, c: Cursor, whole: bool)
    requires InRange(desc, c)
  {
    && (whole ==> c.line + c.size <= c.at && (c.space == c.line ==> c.at == c.line + c.size))
    && (c.space <= c.line || (c.space < c.at && desc[c.space] == ' '))
    && '\n' !in desc[c.line..c.at]
    && forall k :: c.space < k < c.at && c.line <= k ==> desc[k] != ' '
  }

  /** A line that ends without a space ends with a word, when words are short. */
  lemma WordEnds(desc: string, width: nat, c: Cursor)
    requires InRange(desc, c) && c.at < |desc| && Tracks(desc, c, true) && c.size == width + 1
    requires OneParagraph(desc) && ShortWords(desc, width) && SpaceSeen(desc, c) == c.line
    ensures !StartsWord(desc[c.at + 1..])
  {
    if c.at + 1 < |desc| {
      assert BlankIn(desc, c.line + 1, c.at + 2);
    }
  }

  /** One turn keeps track of the last space, and a line it ends is cut off the text where it may be. */
  lemma TurnTracks(desc: string, width: nat, c: Cursor, whole: bool)
    requires InRange(desc, c) && c.at < |desc| && Tracks(desc, c, whole) && c.size <= width + 1
    requires Turn(desc, width, c).Success? && (whole ==> OneParagraph(desc) && ShortWords(desc, width))
    ensures var turned := Turn(desc, width, c).value;
            && Tracks(desc, turned.next, whole) && turned.next.size <= width + 1
            && CutsOff(desc, c.line, turned.piece, turned.next.line, whole)
  {
    if whole && c.size == width + 1 && SpaceSeen(desc, c) == c.line {
      WordEnds(desc, width, c);
    }
  }

  predicate CutsOff(desc: string, from: nat, piece: Option<Piece>, next: nat, whole: bool) {
    from <= next <= |desc| &&
    if piece.None? then next == from
    else
      '\n' !in piece.value.text &&
      if piece.value == Piece(desc[from..next], true) then whole ==> !StartsWord(desc[next..])
      else next > from && piece.value == Piece(desc[from..next - 1], desc[next - 1] == ' ')
           && desc[next - 1] in {' ', '\n'}
  }

  lemma BreakAt(desc: string, from: nat, piece: Option<Piece>, next: nat, rest: Wrapped, whole: bool)
    requires CutsOff(desc, from, piece, next, whole)
    requires rest.Success? && rest.value != [] && BrokenInto(desc[next..], rest.value, whole)
    ensures BrokenInto(desc[from..], Ahead(piece, rest).value, whole)
  {
    assert desc[from..][next - from..] == desc[next..];
    if piece.Some? {
      BreakAhead(desc[from..], piece.value, rest, next - from, whole);
    }
  }

  lemma {:induction false} Conserved(desc: string, width: nat, c: Cursor, whole: bool)
    requires InRange(desc, c) && Tracks(desc, c, whole) && c.size <= width + 1
    requires Wrap(desc, width, c).Success? && (whole ==> OneParagraph(desc) && ShortWords(desc, width))
    ensures BrokenInto(desc[c.line..], Wrap(desc, width, c).value, whole)
    decreases |desc| - c.at
  {
    if c.at < |desc| {
      TurnTracks(desc, width, c, whole);
      var turned := Turn(desc, width, c).value;
      Conserved(desc, width, turned.next, whole);
      BreakAt(desc, c.line, turned.piece, turned.next.line, Wrap(desc, width, turned.next), whole);
    }
  }

  function NonBlank(text: string): string {
    if text == [] then []
    else (if text[0] == ' ' || text[0] == '\n' then [] else [text[0]]) + NonBlank(text[1..])
  }

  lemma {:induction false} NonBlankConcat(a: string, b: string)
    ensures NonBlank(a + b) == NonBlank(a) + NonBlank(b)
    decreases a
  {
    if a == [] {
      assert a + b == b;
    } else {
      assert (a + b)[1..] == a[1..] + b;
      NonBlankConcat(a[1..], b);
    }
  }

  lemma {:induction false} SpacesAreBlank(n: nat)
    ensures NonBlank(Spaces(n)) == [] && NonBlank("\n" + Spaces(n)) == []
  {
    assert ("\n" + Spaces(n))[1..] == Spaces(n);
    if n > 0 {
      assert Spaces(n)[1..] == Spaces(n - 1);
      SpacesAreBlank(n - 1);
    }
  }

  /** How many non-blank characters newlines throw away. */
  function Lost(pieces: seq<Piece>): (n: nat) {
    if pieces == [] then 0 else (if pieces[0].kept then 0 else |NonBlank(pieces[0].text)|) + Lost(pieces[1..])
  }

  /** The characters of some pieces, the lost ones with them. */
  function Joined(pieces: seq<Piece>): string {
    if pieces == [] then [] else NonBlank(pieces[0].text) + Joined(pieces[1..])
  }

  lemma {:induction false} PiecesConserve(text: string, pieces: seq<Piece>, whole: bool)
    requires pieces != [] && BrokenInto(text, pieces, whole)
    ensures NonBlank(text) == Joined(pieces)
    decreases |pieces|
  {
    var first, tail := pieces[0].text, text[|pieces[0].text|..];
    assert text == first + tail;
    NonBlankConcat(first, tail);
    if |pieces| > 1 {
      if pieces[0].kept && (whole ==> !StartsWord(tail)) && BrokenInto(tail, pieces[1..], whole) {
        PiecesConserve(tail, pieces[1..], whole);
      } else {
        assert NonBlank(tail) == NonBlank(tail[1..]);
        PiecesConserve(tail[1..], pieces[1..], whole);
      }
    } else {
      assert tail == [] && NonBlank(tail) == [] && Joined(pieces[1..]) == [];
    }
  }

  lemma LayoutAhead(line: string, lines: seq<string>, start: nat)
    requires lines != []
    ensures NonBlank(Layout([line] + lines, start)) == NonBlank(line) + NonBlank(Layout(lines, start))
  {
    assert ([line] + lines)[1..] == lines;
    var more := ("\n" + Spaces(start)) + Layout(lines, start);
    assert Layout([line] + lines, start) == line + more;
    NonBlankConcat(line, more);
    NonBlankConcat("\n" + Spaces(start), Layout(lines, start));
    SpacesAreBlank(start);
  }

  /** The help text has the characters of the lines that are kept. */
  lemma {:induction false} LayoutConserves(pieces: seq<Piece>, start: nat)
    requires Lines(pieces) != []
    ensures var text := NonBlank(Layout(Lines(pieces), start));
            && |text| + Lost(pieces) == |Joined(pieces)|
            && (Lost(pieces) == 0 ==> text == Joined(pieces))
    decreases |pieces|
  {
    var piece, more := pieces[0], pieces[1..];
    if Lines(more) == [] {
      NothingKept(more);
      assert Lines(pieces) == [piece.text];
    } else {
      LayoutConserves(more, start);
      if piece.kept {
        LayoutAhead(piece.text, Lines(more), start);
      } else {
        assert Lines(pieces) == Lines(more);
      }
    }
  }

  lemma {:induction false} NothingKept(pieces: seq<Piece>)
    requires Lines(pieces) == []
    ensures Lost(pieces) == |Joined(pieces)|
    decreases pieces
  {
    if pieces != [] { NothingKept(pieces[1..]); }
  }

  predicate LosesNothing(pieces: seq<Piece>) {
    forall piece <- pieces :: piece.kept || NonBlank(piece.text) == []
  }

  lemma {:induction false} LostNothing(pieces: seq<Piece>)
    ensures Lost(pieces) == 0 <==> LosesNothing(pieces)
    decreases pieces
  {
    if pieces != [] {
      LostNothing(pieces[1..]);
      assert pieces[0] in pieces && forall piece <- pieces[1..] :: piece in pieces;
      assert forall piece <- pieces :: piece == pieces[0] || piece in pieces[1..];
    }
  }

  /** Without newlines nothing is thrown away. */
  lemma {:induction false} ParagraphKept(text: string, pieces: seq<Piece>, whole: bool)
    requires pieces != [] && BrokenInto(text, pieces, whole) && OneParagraph(text)
    ensures forall piece <- pieces :: piece.kept
    decreases |pieces|
  {
    var tail := text[|pieces[0].text|..];
    assert forall i :: 0 <= i < |tail| ==> tail[i] == text[|pieces[0].text| + i];
    if |pieces| > 1 {
      if (whole ==> !StartsWord(tail)) && BrokenInto(tail, pieces[1..], whole) {
        ParagraphKept(tail, pieces[1..], whole);
      } else {
        ParagraphKept(tail[1..], pieces[1..], whole);
      }
    }
  }

  /** An accepted description is its lines and what newlines throw away, with words whole when there are no newlines
      and no word is longer than width + 1; it keeps its non-blank characters in order exactly when each newline
      finds a blank line pending. */
  lemma WrapConserves(desc: string, width: nat, start: nat)
    requires Wrap(desc, width, START).Success?
    ensures var pieces := Wrap(desc, width, START).value;
            && BrokenInto(desc, pieces, OneParagraph(desc) && ShortWords(desc, width))
            && (NonBlank(Formatted(desc, width, start).value) == NonBlank(desc) <==> LosesNothing(pieces))
            && (OneParagraph(desc) ==> forall piece <- pieces :: piece.kept)
  {
    var pieces, whole := Wrap(desc, width, START).value, OneParagraph(desc) && ShortWords(desc, width);
    Conserved(desc, width, START, whole);
    assert desc[0..] == desc;
    PiecesConserve(desc, pieces, whole);
    LayoutConserves(pieces, start);
    LostNothing(pieces);
    if OneParagraph(desc) { ParagraphKept(desc, pieces, whole); }
    assert "" + Layout(Lines(pieces), start) == Layout(Lines(pieces), start);
  }

  // ----- Which descriptions are accepted -----------------------------------------------------

  /** The place behind the next n characters that are no newlines, or past the end if there are fewer. */
  function After(desc: string, b: nat, n: nat): (e: nat)
    requires b <= |desc|
    ensures b + n <= e <= |desc| || e == |desc| + 1
    ensures e <= |desc| && n > 0 ==> desc[e - 1] != '\n'
    decreases |desc| - b
  {
    if n == 0 then b
    else if b == |desc| then |desc| + 1
    else After(desc, b + 1, if desc[b] == '\n' then n else n - 1)
  }

  /** The place behind the last newline between two places, or the first of them if there is none. */
  function LineFrom(desc: string, b: nat, e: nat): (m: nat)
    requires b <= e <= |desc|
    ensures b <= m <= e
    ensures forall i :: m <= i < e ==> desc[i] != '\n'
    ensures m > b ==> desc[m - 1] == '\n'
  {
    if e == b then b else if desc[e - 1] == '\n' then e else LineFrom(desc, b, e - 1)
  }

  /** The line pending at b began before b: the stretch before was broken at a space that is not its last character. */
  predicate HeldOver(desc: string, b: nat, broken: bool)
    requires b <= |desc|
  {
    broken && b > 0 && desc[b - 1] != ' '
  }

  /** A stretch from b to e ends a line at a space: there is one behind the first character of its last line, or at its
      first character while the line began before it. */
  predicate BreaksAtSpace(desc: string, b: nat, e: nat, broken: bool)
    requires b <= e <= |desc|
  {
    var m := LineFrom(desc, b, e);
    SpaceIn(desc, m + 1, e) || (m == b < e && desc[b] == ' ' && HeldOver(desc, b, broken))
  }

  /** From b on, where `broken` says how the stretch before ended: a stretch is of width + 2 characters and any newlines
      among them, and no stretch without spaces and newlines follows one that was broken at a space. */
  predicate Fits(desc: string, width: nat, b: nat, broken: bool)
    requires b <= |desc|
    decreases |desc| - b
  {
    var e := After(desc, b, width + 2);
    e <= |desc| ==>
      && (broken && LineFrom(desc, b, e) == b ==> SpaceIn(desc, b, e))
      && Fits(desc, width, e, BreaksAtSpace(desc, b, e, broken))
  }

  /** The last space from the start of a line on, or that start. */
  predicate LastSpace(desc: string, c: Cursor, m: nat)
    requires InRange(desc, c)
  {
    if SpaceIn(desc, m, c.at) then m <= c.space < c.at && desc[c.space] == ' ' && !SpaceIn(desc, c.space + 1, c.at)
    else c.space == m
  }

  /** What the loop variables say about the stretch that begins at b, with the line pending there begun at `from`. */
  predicate InStretch(desc: string, width: nat, c: Cursor, b: nat, from: nat, broken: bool)
    requires InRange(desc, c)
  {
    && from <= b <= c.at && c.size <= width + 1 && (from < b <==> HeldOver(desc, b, broken))
    && After(desc, b, width + 2) == After(desc, c.at, width + 2 - c.size)
    && var m := LineFrom(desc, b, c.at);
       if m > b then c.line == m && LastSpace(desc, c, m)
       else
         && c.line == from
         && if broken && !SpaceIn(desc, b, c.at) then c.space + 1 == c.line else LastSpace(desc, c, b)
  }

  lemma OneMore(desc: string, i: nat, at: nat)
    requires i <= at < |desc|
    ensures SpaceIn(desc, i, at + 1) <==> SpaceIn(desc, i, at) || desc[at] == ' '
  {
  }

  lemma StretchGoesOn(desc: string, width: nat, c: Cursor, b: nat, from: nat, broken: bool)
    requires InRange(desc, c) && c.at < |desc| && InStretch(desc, width, c, b, from, broken)
             && (c.size <= width || desc[c.at] == '\n')
    ensures Turn(desc, width, c).Success? && InStretch(desc, width, Turn(desc, width, c).value.next, b, from, broken)
  {
    if desc[c.at] == '\n' {
      StretchRestarts(desc, width, c, Turn(desc, width, c).value.next, b, from, broken);
    } else {
      StretchContinues(desc, width, c, Turn(desc, width, c).value.next, b, from, broken);
    }
  }

  lemma StretchRestarts(desc: string, width: nat, c: Cursor, next: Cursor, b: nat, from: nat, broken: bool)
    requires InRange(desc, c) && c.at < |desc| && InStretch(desc, width, c, b, from, broken) && desc[c.at] == '\n'
    requires next == Cursor(c.at + 1, c.at + 1, c.at + 1, c.size)
    ensures InStretch(desc, width, next, b, from, broken)
  {
    assert !SpaceIn(desc, next.at, next.at) && LineFrom(desc, b, next.at) == next.at;
    assert After(desc, c.at, width + 2 - c.size) == After(desc, next.at, width + 2 - c.size);
  }

  lemma StretchContinues(desc: string, width: nat, c: Cursor, next: Cursor, b: nat, from: nat, broken: bool)
    requires InRange(desc, c) && c.at < |desc| && InStretch(desc, width, c, b, from, broken) && desc[c.at] != '\n'
    requires c.size <= width && next == Cursor(c.at + 1, c.line, SpaceSeen(desc, c), c.size + 1)
    ensures InStretch(desc, width, next, b, from, broken)
  {
    var m := LineFrom(desc, b, c.at);
    assert LineFrom(desc, b, next.at) == m;
    OneMore(desc, m, c.at);
    OneMore(desc, b, c.at);
    assert After(desc, c.at, width + 2 - c.size) == After(desc, next.at, width + 1 - c.size);
    if c.space < c.at { OneMore(desc, c.space + 1, c.at); }
  }

  /** Where the last turn of a stretch looks. */
  lemma EndOfStretch(desc: string, width: nat, c: Cursor, b: nat, from: nat, broken: bool)
    requires InRange(desc, c) && c.at < |desc| && InStretch(desc, width, c, b, from, broken)
    requires c.size == width + 1 && desc[c.at] != '\n'
    ensures var m, e := LineFrom(desc, b, c.at), c.at + 1;
            && After(desc, b, width + 2) == e && LineFrom(desc, b, e) == m
            && (SpaceIn(desc, m, e) <==> SpaceIn(desc, m, c.at) || desc[c.at] == ' ')
            && (SpaceIn(desc, b, e) <==> SpaceIn(desc, b, c.at) || desc[c.at] == ' ')
  {
    assert After(desc, c.at, 1) == After(desc, c.at + 1, 0) == c.at + 1;
  }

  lemma EndFails(desc: string, width: nat, c: Cursor, b: nat, from: nat, broken: bool)
    requires InRange(desc, c) && c.at < |desc| && InStretch(desc, width, c, b, from, broken)
    requires c.size == width + 1 && desc[c.at] != '\n'
    ensures Turn(desc, width, c).Failure? <==> broken && LineFrom(desc, b, c.at + 1) == b && !SpaceIn(desc, b, c.at + 1)
  {
    EndOfStretch(desc, width, c, b, from, broken);
  }

  lemma EndAtSpace(desc: string, width: nat, c: Cursor, next: Cursor, b: nat, from: nat, broken: bool)
    requires InRange(desc, c) && c.at < |desc| && InStretch(desc, width, c, b, from, broken)
    requires c.size == width + 1 && desc[c.at] != '\n' && SpaceSeen(desc, c) > c.line
    requires next == Cursor(c.at + 1, SpaceSeen(desc, c) + 1, SpaceSeen(desc, c), 0)
    ensures BreaksAtSpace(desc, b, next.at, broken) && InStretch(desc, width, next, next.at, next.line, true)
  {
    EndOfStretch(desc, width, c, b, from, broken);
    assert !SpaceIn(desc, next.at, next.at);
  }

  lemma EndHard(desc: string, width: nat, c: Cursor, next: Cursor, b: nat, from: nat, broken: bool)
    requires InRange(desc, c) && c.at < |desc| && InStretch(desc, width, c, b, from, broken)
    requires c.size == width + 1 && desc[c.at] != '\n' && SpaceSeen(desc, c) == c.line
    requires next == Cursor(c.at + 1, c.at + 1, c.at + 1, 0)
    ensures !BreaksAtSpace(desc, b, next.at, broken) && InStretch(desc, width, next, next.at, next.line, false)
  {
    EndOfStretch(desc, width, c, b, from, broken);
    assert !SpaceIn(desc, next.at, next.at);
  }

  lemma EndStarts(desc: string, width: nat, c: Cursor, b: nat, from: nat, broken: bool)
    requires InRange(desc, c) && c.at < |desc| && InStretch(desc, width, c, b, from, broken)
    requires c.size == width + 1 && desc[c.at] != '\n' && Turn(desc, width, c).Success?
    ensures var next := Turn(desc, width, c).value.next;
            InStretch(desc, width, next, next.at, next.line, BreaksAtSpace(desc, b, next.at, broken))
  {
    var next := Turn(desc, width, c).value.next;
    if SpaceSeen(desc, c) == c.line {
      EndHard(desc, width, c, next, b, from, broken);
    } else {
      EndAtSpace(desc, width, c, next, b, from, broken);
    }
  }

  lemma StretchEnds(desc: string, width: nat, c: Cursor, b: nat, from: nat, broken: bool)
    requires InRange(desc, c) && c.at < |desc| && InStretch(desc, width, c, b, from, broken)
    requires c.size == width + 1 && desc[c.at] != '\n'
    ensures var turned, e := Turn(desc, width, c), After(desc, b, width + 2);
            && e == c.at + 1
            && if turned.Failure? then !Fits(desc, width, b, broken)
               else
                 var breaks := BreaksAtSpace(desc, b, e, broken);
                 && InStretch(desc, width, turned.value.next, e, turned.value.next.line, breaks)
                 && (Fits(desc, width, b, broken) <==> Fits(desc, width, e, breaks))
  {
    EndOfStretch(desc, width, c, b, from, broken);
    EndFails(desc, width, c, b, from, broken);
    if Turn(desc, width, c).Success? { EndStarts(desc, width, c, b, from, broken); }
  }

  lemma {:induction false} AcceptedFrom(desc: string, width: nat, c: Cursor, b: nat, from: nat, broken: bool)
    requires InRange(desc, c) && InStretch(desc, width, c, b, from, broken)
    ensures Wrap(desc, width, c).Success? <==> Fits(desc, width, b, broken)
    decreases |desc| - c.at
  {
    if c.at < |desc| {
      var turned := Turn(desc, width, c);
      if c.size <= width || desc[c.at] == '\n' {
        StretchGoesOn(desc, width, c, b, from, broken);
        AcceptedFrom(desc, width, turned.value.next, b, from, broken);
      } else {
        StretchEnds(desc, width, c, b, from, broken);
        var e := After(desc, b, width + 2);
        if turned.Success? {
          AcceptedFrom(desc, width, turned.value.next, e, turned.value.next.line, BreaksAtSpace(desc, b, e, broken));
        }
      }
    }
  }

  /** Exactly the descriptions that fit are accepted. */
  lemma AcceptedIffFits(desc: string, width: nat)
    ensures Wrap(desc, width, START).Success? <==> Fits(desc, width, 0, false)
  {
    AcceptedFrom(desc, width, START, 0, 0, false);
  }

  /** Descriptions whose words are no longer than width + 1 fit. */
  lemma {:induction false} ShortWordsFit(desc: string, width: nat, b: nat, broken: bool)
    requires b <= |desc| && ShortWords(desc, width)
    ensures Fits(desc, width, b, broken)
    decreases |desc| - b
  {
    var e := After(desc, b, width + 2);
    if e <= |desc| {
      assert BlankIn(desc, b, b + width + 2);
      ShortWordsFit(desc, width, e, BreaksAtSpace(desc, b, e, broken));
    }
  }

  lemma {:induction false} AfterLetters(desc: string, b: nat, n: nat)
    requires b + n <= |desc| && forall i :: b <= i < b + n ==> desc[i] != '\n'
    ensures After(desc, b, n) == b + n
    decreases n
  {
    if n > 0 { AfterLetters(desc, b + 1, n - 1); }
  }

  lemma SecondStretchFails(desc: string, width: nat)
    requires |desc| >= 2 * width + 4 && desc[1] == ' ' && '\n' !in desc
    requires forall i :: 2 <= i < |desc| ==> desc[i] != ' '
    ensures !Fits(desc, width, 0, false)
  {
    var e := width + 2;
    AfterLetters(desc, 0, e);
    assert BreaksAtSpace(desc, 0, e, false) by { assert LineFrom(desc, 0, e) == 0; }
    assert !Fits(desc, width, e, true) by {
      AfterLetters(desc, e, e);
      assert LineFrom(desc, e, 2 * e) == e;
    }
  }

  /** At every width a short word and then a word of more than twice the width are refused. */
  lemma LongWordRefused(word: string, width: nat)
    requires |word| >= 2 * width + 2 && ' ' !in word && '\n' !in word
    ensures Wrap("a " + word, width, START).Failure?
  {
    var desc := "a " + word;
    assert forall i :: 2 <= i < |desc| ==> desc[i] == word[i - 2];
    SecondStretchFails(desc, width);
    AcceptedIffFits(desc, width);
  }

  // ----- What newlines throw away ---------------------------------------------------------------

  /** Where the line pending at the end of a stretch from b to e begins, when the stretch has ended it or a line
      before: behind the last space, or at the end. */
  function BrokenAt(desc: string, b: nat, e: nat, broken: bool): (from: nat)
    requires b <= e <= |desc|
    ensures from <= e
  {
    if BreaksAtSpace(desc, b, e, broken) then SpaceBefore(desc, b, e) else e
  }

  /** The place behind the last space before e, not before b. */
  function SpaceBefore(desc: string, b: nat, e: nat): (from: nat)
    requires b <= e <= |desc|
    ensures b <= from <= e
    ensures from > b ==> desc[from - 1] == ' '
    ensures forall k :: from <= k < e ==> desc[k] != ' '
  {
    if e == b then b else if desc[e - 1] == ' ' then e else SpaceBefore(desc, b, e - 1)
  }

  function LeastOf(a: nat, b: nat): nat {
    if a <= b then a else b
  }

  /** From b on, where the line pending begins at `from`: in every stretch with newlines, the last and the one without
      full length included, everything from the line pending before it to its last newline is blank. */
  predicate BlankAtNewlines(desc: string, width: nat, b: nat, from: nat, broken: bool)
    requires from <= b <= |desc|
    decreases |desc| - b
  {
    var e := After(desc, b, width + 2);
    var m := LineFrom(desc, b, LeastOf(e, |desc|));
    && (m > b ==> NonBlank(desc[from..m]) == [])
    && (e <= |desc|
        ==> BlankAtNewlines(desc, width, e, BrokenAt(desc, b, e, broken), BreaksAtSpace(desc, b, e, broken)))
  }

  lemma LosesFirst(piece: Piece, rest: seq<Piece>)
    ensures LosesNothing([piece] + rest) <==> (piece.kept || NonBlank(piece.text) == []) && LosesNothing(rest)
  {
    assert piece in [piece] + rest && forall p <- rest :: p in [piece] + rest;
  }

  /** What is still to be lost of a stretch, and behind it. */
  predicate BlankFrom(desc: string, width: nat, c: Cursor, b: nat, broken: bool)
    requires InRange(desc, c) && b <= c.at
  {
    var e := After(desc, b, width + 2);
    var m := LineFrom(desc, b, LeastOf(e, |desc|));
    && c.at <= e
    && (m > c.at ==> NonBlank(desc[c.line..m]) == [])
    && (e <= |desc|
        ==> BlankAtNewlines(desc, width, e, BrokenAt(desc, b, e, broken), BreaksAtSpace(desc, b, e, broken)))
  }

  lemma LineFromAt(desc: string, b: nat, at: nat, e: nat)
    requires b <= at < e <= |desc|
    ensures var m := LineFrom(desc, b, e);
            && (desc[at] == '\n' ==> m > at) && (m == at + 1 ==> desc[at] == '\n')
  {
  }

  /** A newline loses the line pending there, and the text up to the stretch's last newline is blank only if that
      line is. */
  lemma NewlineLoses(desc: string, line: nat, at: nat, m: nat)
    requires line <= at < m <= |desc| && desc[at] == '\n'
    ensures NonBlank(desc[line..m]) == NonBlank(desc[line..at]) + NonBlank(desc[at + 1..m])
  {
    assert desc[line..m] == desc[line..at] + (['\n'] + desc[at + 1..m]);
    NonBlankConcat(desc[line..at], ['\n'] + desc[at + 1..m]);
    assert (['\n'] + desc[at + 1..m])[1..] == desc[at + 1..m];
  }

  /** While a stretch goes on, what its turn loses and what is lost afterwards. */
  lemma TurnLoses(desc: string, width: nat, c: Cursor, b: nat, from: nat, broken: bool)
    requires InRange(desc, c) && c.at < |desc| && InStretch(desc, width, c, b, from, broken)
             && (c.size <= width || desc[c.at] == '\n')
    ensures Turn(desc, width, c).Success?
    ensures var turned := Turn(desc, width, c).value;
            BlankFrom(desc, width, c, b, broken) <==>
              KeptOrBlank(turned.piece) && BlankFrom(desc, width, turned.next, b, broken)
  {
    var next := Turn(desc, width, c).value.next;
    StretchReaches(desc, width, c, b, from, broken);
    if desc[c.at] == '\n' {
      BlankUpTo(desc, width, c, next, b, broken);
    } else {
      BlankOn(desc, width, c, next, b, broken);
    }
  }

  lemma StretchReaches(desc: string, width: nat, c: Cursor, b: nat, from: nat, broken: bool)
    requires InRange(desc, c) && c.at < |desc| && InStretch(desc, width, c, b, from, broken)
    ensures c.at < After(desc, b, width + 2)
  {
  }

  lemma BlankUpTo(desc: string, width: nat, c: Cursor, next: Cursor, b: nat, broken: bool)
    requires InRange(desc, c) && b <= c.at < |desc| && c.at < After(desc, b, width + 2) && desc[c.at] == '\n'
    requires next == Cursor(c.at + 1, c.at + 1, c.at + 1, c.size)
    ensures BlankFrom(desc, width, c, b, broken)
            <==> NonBlank(desc[c.line..c.at]) == [] && BlankFrom(desc, width, next, b, broken)
  {
    var e := LeastOf(After(desc, b, width + 2), |desc|);
    var m := LineFrom(desc, b, e);
    LineFromAt(desc, b, c.at, e);
    NewlineLoses(desc, c.line, c.at, m);
    assert m == c.at + 1 ==> NonBlank(desc[c.at + 1..m]) == [];
  }

  lemma BlankOn(desc: string, width: nat, c: Cursor, next: Cursor, b: nat, broken: bool)
    requires InRange(desc, c) && InRange(desc, next) && b <= c.at < |desc| && c.at < After(desc, b, width + 2)
             && desc[c.at] != '\n'
    requires next.at == c.at + 1 && next.line == c.line
    ensures BlankFrom(desc, width, c, b, broken) <==> BlankFrom(desc, width, next, b, broken)
  {
    LineFromAt(desc, b, c.at, LeastOf(After(desc, b, width + 2), |desc|));
  }

  lemma LastSpaceIs(desc: string, b: nat, e: nat, at: nat)
    requires b <= at < e <= |desc| && desc[at] == ' ' && !SpaceIn(desc, at + 1, e)
    ensures SpaceBefore(desc, b, e) == at + 1
  {
    assert forall k :: at < k < e ==> desc[k] != ' ';
    assert SpaceBefore(desc, b, e) > at;
  }

  /** The last turn of a stretch leaves the line pending that the stretch leaves. */
  lemma EndBreaks(desc: string, width: nat, c: Cursor, b: nat, from: nat, broken: bool)
    requires InRange(desc, c) && c.at < |desc| && InStretch(desc, width, c, b, from, broken)
    requires c.size == width + 1 && desc[c.at] != '\n' && Turn(desc, width, c).Success?
    ensures Turn(desc, width, c).value.next.line == BrokenAt(desc, b, c.at + 1, broken)
  {
    var m, e, space := LineFrom(desc, b, c.at), c.at + 1, SpaceSeen(desc, c);
    assert LineFrom(desc, b, e) == m;
    assert SpaceIn(desc, m, e) <==> SpaceIn(desc, m, c.at) || desc[c.at] == ' ';
    if BreaksAtSpace(desc, b, e, broken) { LastSpaceIs(desc, b, e, space); }
  }

  /** At the end of a stretch nothing more of it is lost. */
  lemma EndBlank(desc: string, width: nat, c: Cursor, next: Cursor, b: nat, broken: bool)
    requires InRange(desc, c) && InRange(desc, next) && b <= c.at && After(desc, b, width + 2) == c.at + 1 == next.at
    requires desc[c.at] != '\n' && next.line == BrokenAt(desc, b, next.at, broken)
    ensures BlankFrom(desc, width, c, b, broken)
            <==> BlankFrom(desc, width, next, next.at, BreaksAtSpace(desc, b, next.at, broken))
  {
    assert LineFrom(desc, b, next.at) <= c.at;
  }

  /** The last turn of a stretch loses nothing. */
  lemma EndLoses(desc: string, width: nat, c: Cursor, b: nat, from: nat, broken: bool)
    requires InRange(desc, c) && c.at < |desc| && InStretch(desc, width, c, b, from, broken)
    requires c.size == width + 1 && desc[c.at] != '\n' && Turn(desc, width, c).Success?
    requires After(desc, b, width + 2) == c.at + 1
    ensures var turned, e := Turn(desc, width, c).value, c.at + 1;
            && KeptOrBlank(turned.piece)
            && (BlankFrom(desc, width, c, b, broken)
                <==> BlankFrom(desc, width, turned.next, e, BreaksAtSpace(desc, b, e, broken)))
  {
    EndBreaks(desc, width, c, b, from, broken);
    EndBlank(desc, width, c, Turn(desc, width, c).value.next, b, broken);
  }

  predicate KeptOrBlank(piece: Option<Piece>) {
    piece.Some? ==> piece.value.kept || NonBlank(piece.value.text) == []
  }

  lemma LosesStep(desc: string, width: nat, c: Cursor)
    requires InRange(desc, c) && c.at < |desc| && Wrap(desc, width, c).Success?
    ensures var turned := Turn(desc, width, c).value;
            LosesNothing(Wrap(desc, width, c).value) <==>
              KeptOrBlank(turned.piece) && LosesNothing(Wrap(desc, width, turned.next).value)
  {
    var turned := Turn(desc, width, c).value;
    if turned.piece.Some? { LosesFirst(turned.piece.value, Wrap(desc, width, turned.next).value); }
  }

  lemma LosesLast(desc: string, width: nat, c: Cursor, b: nat, from: nat, broken: bool)
    requires InRange(desc, c) && c.at == |desc| && InStretch(desc, width, c, b, from, broken)
    ensures LosesNothing(Wrap(desc, width, c).value) && BlankFrom(desc, width, c, b, broken)
  {
    assert After(desc, b, width + 2) == |desc| + 1;
  }

  lemma {:induction false} LosesIffBlank(desc: string, width: nat, c: Cursor, b: nat, from: nat, broken: bool)
    requires InRange(desc, c) && InStretch(desc, width, c, b, from, broken) && Wrap(desc, width, c).Success?
    ensures LosesNothing(Wrap(desc, width, c).value) <==> BlankFrom(desc, width, c, b, broken)
    decreases |desc| - c.at, 1
  {
    if c.at == |desc| {
      LosesLast(desc, width, c, b, from, broken);
    } else {
      LosesStep(desc, width, c);
      if c.size <= width || desc[c.at] == '\n' {
        LosesOnward(desc, width, c, b, from, broken);
      } else {
        LosesBehind(desc, width, c, b, from, broken);
      }
    }
  }

  lemma {:induction false} LosesOnward(desc: string, width: nat, c: Cursor, b: nat, from: nat, broken: bool)
    requires InRange(desc, c) && c.at < |desc| && InStretch(desc, width, c, b, from, broken)
             && Wrap(desc, width, c).Success?
    requires c.size <= width || desc[c.at] == '\n'
    ensures var turned := Turn(desc, width, c).value;
            BlankFrom(desc, width, c, b, broken) <==>
              KeptOrBlank(turned.piece) && LosesNothing(Wrap(desc, width, turned.next).value)
    decreases |desc| - c.at, 0
  {
    StretchGoesOn(desc, width, c, b, from, broken);
    TurnLoses(desc, width, c, b, from, broken);
    LosesIffBlank(desc, width, Turn(desc, width, c).value.next, b, from, broken);
  }

  lemma {:induction false} LosesBehind(desc: string, width: nat, c: Cursor, b: nat, from: nat, broken: bool)
    requires InRange(desc, c) && c.at < |desc| && InStretch(desc, width, c, b, from, broken)
             && Wrap(desc, width, c).Success?
    requires c.size == width + 1 && desc[c.at] != '\n'
    ensures var turned := Turn(desc, width, c).value;
            BlankFrom(desc, width, c, b, broken) <==>
              KeptOrBlank(turned.piece) && LosesNothing(Wrap(desc, width, turned.next).value)
    decreases |desc| - c.at, 0
  {
    var next, breaks := EndTakes(desc, width, c, b, from, broken);
    LosesIffBlank(desc, width, next, next.at, next.line, breaks);
  }

  lemma EndTakes(desc: string, width: nat, c: Cursor, b: nat, from: nat, broken: bool)
    returns (next: Cursor, breaks: bool)
    requires InRange(desc, c) && c.at < |desc| && InStretch(desc, width, c, b, from, broken)
    requires c.size == width + 1 && desc[c.at] != '\n' && Turn(desc, width, c).Success?
    ensures next == Turn(desc, width, c).value.next && KeptOrBlank(Turn(desc, width, c).value.piece)
    ensures InStretch(desc, width, next, next.at, next.line, breaks)
    ensures BlankFrom(desc, width, c, b, broken) <==> BlankFrom(desc, width, next, next.at, breaks)
  {
    next := Turn(desc, width, c).value.next;
    breaks := BreaksAtSpace(desc, b, next.at, broken);
    EndOfStretch(desc, width, c, b, from, broken);
    EndStarts(desc, width, c, b, from, broken);
    EndLoses(desc, width, c, b, from, broken);
  }

  /** An accepted description keeps its non-blank characters in order exactly when, in every stretch with newlines,
      everything from the line pending before it to its last newline is blank. */
  lemma ConservedIffBlank(desc: string, width: nat, start: nat)
    requires Wrap(desc, width, START).Success?
    ensures NonBlank(Formatted(desc, width, start).value) == NonBlank(desc)
            <==> BlankAtNewlines(desc, width, 0, 0, false)
  {
    WrapConserves(desc, width, start);
    assert InStretch(desc, width, START, 0, 0, false) by { assert !SpaceIn(desc, 0, 0); }
    LosesIffBlank(desc, width, START, 0, 0, false);
    BlankAtStart(desc, width);
  }

  lemma BlankAtStart(desc: string, width: nat)
    ensures BlankFrom(desc, width, START, 0, false) <==> BlankAtNewlines(desc, width, 0, 0, false)
  {
  }

  /** So a description too short to be broken keeps them exactly when everything before its last newline is blank. */
  lemma ShortConservedIffBlank(desc: string, width: nat, start: nat)
    requires After(desc, 0, width + 2) > |desc|
    ensures Formatted(desc, width, start).Success?
    ensures NonBlank(Formatted(desc, width, start).value) == NonBlank(desc)
            <==> NonBlank(desc[..LineFrom(desc, 0, |desc|)]) == []
  {
    AcceptedIffFits(desc, width);
    ConservedIffBlank(desc, width, start);
    var m := LineFrom(desc, 0, |desc|);
    assert desc[0..m] == desc[..m];
  }

  // ----- Newlines --------------------------------------------------------------------------

  lemma {:induction false} RunsToNewline(desc: string, width: nat, n: nat, c: Cursor)
    requires n < |desc| && desc[n] == '\n' && n <= width + 1 && forall i :: 0 <= i < n ==> desc[i] != '\n'
    requires InRange(desc, c) && c.at <= n && c.size == c.at && c.line == 0
    ensures Wrap(desc, width, c)
            == Ahead(Some(Piece(desc[..n], false)), Wrap(desc, width, Cursor(n + 1, n + 1, n + 1, n)))
    decreases n - c.at
  {
    if c.at < n {
      var next := Cursor(c.at + 1, 0, SpaceSeen(desc, c), c.size + 1);
      assert Turn(desc, width, c) == Success(Turned(None, next));
      RunsToNewline(desc, width, n, next);
    } else {
      assert desc[c.line..c.at] == desc[..n];
    }
  }

  lemma LineAhead(head: string, pieces: seq<Piece>)
    ensures Lines([Piece(head, false)] + pieces) == Lines(pieces)
  {
    assert ([Piece(head, false)] + pieces)[1..] == pieces;
  }

  /** A first line that is short enough for the help text, but ends with a newline, is lost: the non-blank
      characters are conserved exactly when it has none. */
  lemma FirstLineLost(head: string, rest: string, width: nat, start: nat)
    requires |head| <= width + 1 && OneParagraph(head) && OneParagraph(rest)
    requires Wrap(head + "\n" + rest, width, START).Success?
    ensures var text := NonBlank(Formatted(head + "\n" + rest, width, start).value);
            text == NonBlank(rest) && (text == NonBlank(head + "\n" + rest) <==> NonBlank(head) == [])
  {
    var desc, n := head + "\n" + rest, |head|;
    RunsToNewline(desc, width, n, START);
    var after := Cursor(n + 1, n + 1, n + 1, n);
    var pieces := Wrap(desc, width, after).value;
    Conserved(desc, width, after, false);
    assert desc[n + 1..] == rest;
    ParagraphKept(rest, pieces, false);
    PiecesConserve(rest, pieces, false);
    LayoutConserves(pieces, start);
    LostNothing(pieces);
    LineAhead(head, pieces);
    assert "" + Layout(Lines(pieces), start) == Layout(Lines(pieces), start);
    NonBlankConcat(head + "\n", rest);
    NonBlankConcat(head, "\n");
  }

  // ----- What the help text shows ----------------------------------------------------------

  /** The characters in front of the first newline. */
  function LineEnd(text: string): (n: nat)
    ensures n <= |text|
  {
    if text == [] || text[0] == '\n' then 0 else 1 + LineEnd(text[1..])
  }

  /** The lines of a text, if each but the first is indented by so many spaces, which are taken away. */
  function ReadLines(text: string, start: nat): Option<seq<string>>
    decreases |text|
  {
    var n := LineEnd(text);
    if n == |text| then Some([text])
    else if |text| < n + 1 + start || text[n + 1..n + 1 + start] != Spaces(start) then None
    else
      var more := ReadLines(text[n + 1 + start..], start);
      if more.None? then None else Some([text[..n]] + more.value)
  }

  lemma {:induction false} LineEndAt(line: string, rest: string)
    requires '\n' !in line && (rest != [] ==> rest[0] == '\n')
    ensures LineEnd(line + rest) == |line|
    decreases line
  {
    if line == [] {
      assert line + rest == rest;
    } else {
      assert (line + rest)[1..] == line[1..] + rest;
      LineEndAt(line[1..], rest);
    }
  }

  /** A text begins with a line and, behind the indentation, goes on with the rest. */
  predicate Heads(text: string, line: string, rest: string, start: nat) {
    && LineEnd(text) == |line| && text[..|line|] == line && |text| == |line| + 1 + start + |rest|
    && text[|line| + 1..|line| + 1 + start] == Spaces(start) && text[|line| + 1 + start..] == rest
  }

  lemma ReadAhead(text: string, line: string, rest: string, start: nat)
    requires Heads(text, line, rest, start)
    ensures var more := ReadLines(rest, start);
            ReadLines(text, start) == if more.None? then None else Some([line] + more.value)
  {
  }

  lemma LayoutHead(lines: seq<string>, start: nat)
    requires |lines| > 1 && '\n' !in lines[0]
    ensures Heads(Layout(lines, start), lines[0], Layout(lines[1..], start), start)
  {
    var rest := Layout(lines[1..], start);
    var behind := "\n" + (Spaces(start) + rest);
    assert Layout(lines, start) == lines[0] + behind;
    LineEndAt(lines[0], behind);
  }

  lemma ReadOne(line: string, start: nat)
    requires '\n' !in line
    ensures ReadLines(line, start) == Some([line])
  {
    LineEndAt(line, []);
    assert line + [] == line;
  }

  lemma {:induction false} LayoutReadsBack(lines: seq<string>, start: nat)
    requires lines != [] && forall line <- lines :: '\n' !in line
    ensures ReadLines(Layout(lines, start), start) == Some(lines)
    decreases |lines|
  {
    if |lines| == 1 {
      ReadOne(lines[0], start);
      assert [lines[0]] == lines;
    } else {
      var more := lines[1..];
      LayoutReadsBack(more, start);
      LayoutHead(lines, start);
      ReadAhead(Layout(lines, start), lines[0], Layout(more, start), start);
      assert [lines[0]] + more == lines;
    }
  }

  lemma {:induction false} NoNewlines(text: string, pieces: seq<Piece>, whole: bool)
    requires pieces != [] && BrokenInto(text, pieces, whole)
    ensures forall line <- Lines(pieces) :: '\n' !in line
    decreases |pieces|
  {
    var rest := text[|pieces[0].text|..];
    if |pieces| > 1 {
      if pieces[0].kept && BrokenInto(rest, pieces[1..], whole) {
        NoNewlines(rest, pieces[1..], whole);
      } else {
        NoNewlines(rest[1..], pieces[1..], whole);
      }
    }
  }

  /** The help text of a description shows exactly the lines that are kept, each but the first behind the
      indentation. */
  lemma ShowsLines(desc: string, width: nat, start: nat)
    ensures Formatted(desc, width, start).Success? <==> Wrap(desc, width, START).Success?
    ensures Formatted(desc, width, start).Success?
            ==> ReadLines(Formatted(desc, width, start).value, start) == Some(Lines(Wrap(desc, width, START).value))
  {
    var r := Wrap(desc, width, START);
    if r.Success? {
      Conserved(desc, width, START, false);
      NoNewlines(desc[START.line..], r.value, false);
      LayoutReadsBack(Lines(r.value), start);
      assert [] + Layout(Lines(r.value), start) == Layout(Lines(r.value), start);
    }
  }
}
