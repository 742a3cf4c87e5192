/** The share text (`src/game/share.ts`): a header line followed by one emoji row per guess. */
module Share {
  import opened Types
  import opened Text

  /** `emojiMap`: green for correct, yellow for present, black for absent and empty alike. */
  function Glyph(s: LetterState): (g: char)
    ensures !IsJsWhitespace(g)
  {
    match s
    case Correct => '\U{1F7E9}'
    case Present => '\U{1F7E8}'
    case Absent => '\U{2B1B}'
    case Empty => '\U{2B1B}'
  }

  /** What a reader of the grid can tell about a state: `Empty` looks like `Absent`. */
  function Shown(s: LetterState): LetterState {
    if s == Empty then Absent else s
  }

  /** Two states share a glyph exactly when they look the same. */
  lemma GlyphClasses(a: LetterState, b: LetterState)
    ensures Glyph(a) == Glyph(b) <==> Shown(a) == Shown(b)
    ensures Glyph(Absent) == Glyph(Empty)
    ensures Glyph(Correct) != Glyph(Present)
    ensures Glyph(Correct) != Glyph(Absent) && Glyph(Present) != Glyph(Absent)
  {
  }

  /** Reading a glyph back: the state it shows, `None` for any other character. */
  function ReadGlyph(c: char): (r: Option<LetterState>)
    ensures r.Some? ==> Glyph(r.value) == c && r.value != Empty
  {
    if c == '\U{1F7E9}' then Some(Correct)
    else if c == '\U{1F7E8}' then Some(Present)
    else if c == '\U{2B1B}' then Some(Absent)
    else None
  }

  /** `ReadGlyph` inverts `Glyph` up to the absent/empty merge. */
  lemma ReadGlyphOfGlyph(s: LetterState)
    ensures ReadGlyph(Glyph(s)) == Some(Shown(s))
  {
  }

  /** One grid row: a glyph per state, joined with no separator. */
  function Row(e: Evaluation): string {
    seq(|e.states|, i requires 0 <= i < |e.states| => Glyph(e.states[i]))
  }

  function Rows(evaluations: seq<Evaluation>): seq<string> {
    seq(|evaluations|, i requires 0 <= i < |evaluations| => Row(evaluations[i]))
  }

  /** The grid: the rows in order, joined with newlines. */
  function Grid(evaluations: seq<Evaluation>): string {
    Join(Rows(evaluations), "\n")
  }

  /** The attempts part of the header: the guess count when won, `X` when lost, `-` while playing. */
  function AttemptsLabel(status: GameStatus, count: nat): (r: string)
    ensures |r| > 0
    ensures forall i :: 0 <= i < |r| ==> r[i] != '\n' && !IsJsWhitespace(r[i])
    ensures status == Won <==> '0' <= r[0] <= '9'
    ensures status == Won ==> IsDecimal(r) && DecimalValue(r) == count
    ensures status == Lost <==> r == "X"
    ensures status == Playing <==> r == "-"
  {
    match status
    case Won => NatToStringValue(count); NatToString(count)
    case Lost => "X"
    case Playing => "-"
  }

  function ModeName(mode: GameMode): string {
    if mode == Daily then "Daily" else "Practice"
  }

  /** `WordMint {Daily|Practice} {dateKey} {attempts}/{MAX_ATTEMPTS}`. */
  function Header(mode: GameMode, dateKey: string, status: GameStatus, count: nat): (r: string)
    ensures |r| > 0 && r[0] == 'W' && r[|r| - 1] == '6'
  {
    "WordMint " + ModeName(mode) + " " + dateKey + " " + AttemptsLabel(status, count) + "/" + NatToString(MAX_ATTEMPTS)
  }

  /** The last header field, `{attempts}/{MAX_ATTEMPTS}`, holds no space. */
  lemma AttemptsFieldHasNoSpace(status: GameStatus, count: nat)
    ensures ' ' !in AttemptsLabel(status, count) + "/" + NatToString(MAX_ATTEMPTS)
  {
    var tally := AttemptsLabel(status, count);
    var field := tally + "/" + NatToString(MAX_ATTEMPTS);
    forall i | 0 <= i < |field| ensures field[i] != ' ' {
      var n := |tally|;
      if i < n {
        assert field[i] == tally[i];
      } else if i > n {
        assert field[i] == NatToString(MAX_ATTEMPTS)[i - n - 1];
      }
    }
  }

  lemma JoinFour(a: string, b: string, c: string, d: string)
    ensures Join([a, b, c, d], " ") == a + " " + b + " " + c + " " + d
  {
    var parts := [a, b, c, d];
    assert parts[1..] == [b, c, d] && parts[2..] == [c, d] && parts[3..] == [d];
    assert Join([c, d], " ") == c + " " + d;
    assert Join([b, c, d], " ") == b + " " + (c + " " + d);
    assert Join(parts, " ") == a + " " + (b + " " + (c + " " + d));
  }

  /** The header splits at its spaces into the game name, the mode, the date key and
      `{attempts}/{MAX_ATTEMPTS}`, provided the date key holds no space. */
  lemma HeaderFields(mode: GameMode, dateKey: string, status: GameStatus, count: nat)
    requires ' ' !in dateKey
    ensures Split(Header(mode, dateKey, status, count), ' ')
      == ["WordMint", ModeName(mode), dateKey, AttemptsLabel(status, count) + "/" + NatToString(MAX_ATTEMPTS)]
  {
    var tally := AttemptsLabel(status, count);
    var field := tally + "/" + NatToString(MAX_ATTEMPTS);
    var name := ModeName(mode);
    AttemptsFieldHasNoSpace(status, count);
    JoinFour("WordMint", name, dateKey, field);
    assert "WordMint" + " " == "WordMint ";
    assert Header(mode, dateKey, status, count) == "WordMint" + " " + name + " " + dateKey + " " + field;
    SplitJoin(["WordMint", name, dateKey, field], ' ');
  }

  /** The header tells apart the mode, the date key and the status, and a won header
      tells the number of attempts. */
  lemma HeaderDetermines(mode: GameMode, dateKey: string, status: GameStatus, count: nat,
                         mode': GameMode, dateKey': string, status': GameStatus, count': nat)
    requires ' ' !in dateKey && ' ' !in dateKey'
    requires Header(mode, dateKey, status, count) == Header(mode', dateKey', status', count')
    ensures mode == mode' && dateKey == dateKey' && status == status'
    ensures status == Won ==> count == count'
  {
    HeaderFields(mode, dateKey, status, count);
    HeaderFields(mode', dateKey', status', count');
    var n := NatToString(MAX_ATTEMPTS);
    var a := AttemptsLabel(status, count);
    var a' := AttemptsLabel(status', count');
    var fields := Split(Header(mode, dateKey, status, count), ' ');
    assert fields[1] == ModeName(mode) == ModeName(mode');
    assert fields[3] == a + "/" + n == a' + "/" + n;
    assert a == (a + "/" + n)[..|a|] == (a' + "/" + n)[..|a'|] == a';
  }

  /** A header line as `buildShareText` needs it: non-empty, starting and ending with a
      visible character, and holding no line break. */
  predicate HeaderLine(h: string) {
    && |h| > 0 && !IsJsWhitespace(h[0]) && !IsJsWhitespace(h[|h| - 1])
    && '\n' !in h
  }

  /** The header is such a line when the date key has no line break. */
  lemma HeaderIsHeaderLine(mode: GameMode, dateKey: string, status: GameStatus, count: nat)
    requires '\n' !in dateKey
    ensures HeaderLine(Header(mode, dateKey, status, count))
  {
    var tally := AttemptsLabel(status, count);
    var n := NatToString(MAX_ATTEMPTS);
    assert '\n' !in tally;
    assert '\n' !in n;
    assert '\n' !in ModeName(mode);
  }

  /** The trimmed text under a given header line. */
  function ShareText(header: string, evaluations: seq<Evaluation>): string {
    Trim(header + "\n" + Grid(evaluations))
  }

  /** `buildShareText`: header, newline and grid, with surrounding whitespace trimmed. The
      trim can only shorten the grid end, never the header. */
  function BuildShareText(mode: GameMode, dateKey: string, status: GameStatus, evaluations: seq<Evaluation>): (r: string)
    ensures Header(mode, dateKey, status, |evaluations|) <= r
    ensures r <= Header(mode, dateKey, status, |evaluations|) + "\n" + Grid(evaluations)
  {
    var header := Header(mode, dateKey, status, |evaluations|);
    ShareTextFrames(header, evaluations);
    ShareText(header, evaluations)
  }

  lemma ShareTextFrames(header: string, evaluations: seq<Evaluation>)
    requires |header| > 0 && !IsJsWhitespace(header[0]) && !IsJsWhitespace(header[|header| - 1])
    ensures header <= ShareText(header, evaluations) <= header + "\n" + Grid(evaluations)
  {
    TrimKeepsPrefix(header, "\n" + Grid(evaluations));
    assert header + "\n" + Grid(evaluations) == header + ("\n" + Grid(evaluations));
  }

  lemma ShareTextNoRows(header: string)
    requires |header| > 0 && !IsJsWhitespace(header[0]) && !IsJsWhitespace(header[|header| - 1])
    ensures ShareText(header, []) == header
  {
    assert Grid([]) == "";
    var s := header + "\n";
    assert header + "\n" + Grid([]) == s;
    assert s[..|header|] == header && IsJsWhitespace(s[|header|]);
    assert TrimEnd(s) == TrimEnd(header) == header;
    TrimVisible(header);
    assert Trim(s) == TrimStart(header) == header;
  }

  /** The grid ends in a glyph when its last row is non-empty. */
  lemma GridEndsVisible(evaluations: seq<Evaluation>)
    requires |evaluations| > 0 && |evaluations[|evaluations| - 1].states| > 0
    ensures |Grid(evaluations)| > 0 && !IsJsWhitespace(Grid(evaluations)[|Grid(evaluations)| - 1])
  {
    var rows := Rows(evaluations);
    var grid := Grid(evaluations);
    JoinEndsWithLast(rows, "\n");
    var last := rows[|rows| - 1];
    assert last == Row(evaluations[|evaluations| - 1]);
    assert grid[|grid| - 1] == last[|last| - 1];
  }

  lemma ShareTextFull(header: string, evaluations: seq<Evaluation>)
    requires |header| > 0 && !IsJsWhitespace(header[0])
    requires |evaluations| > 0 && |evaluations[|evaluations| - 1].states| > 0
    ensures ShareText(header, evaluations) == header + "\n" + Grid(evaluations)
  {
    var grid := Grid(evaluations);
    GridEndsVisible(evaluations);
    var full := header + "\n" + grid;
    assert full[|full| - 1] == grid[|grid| - 1];
    assert full[0] == header[0];
    TrimVisible(full);
  }

  /** With no guesses the trailing newline is trimmed away and only the header remains. */
  lemma ShareTextWithoutGuesses(mode: GameMode, dateKey: string, status: GameStatus)
    ensures BuildShareText(mode, dateKey, status, []) == Header(mode, dateKey, status, 0)
  {
    ShareTextNoRows(Header(mode, dateKey, status, 0));
  }

  /** When the last row is non-empty nothing is trimmed: the text is the header, a newline
      and the grid. */
  lemma ShareTextUntrimmed(mode: GameMode, dateKey: string, status: GameStatus, evaluations: seq<Evaluation>)
    requires |evaluations| > 0 && |evaluations[|evaluations| - 1].states| > 0
    ensures BuildShareText(mode, dateKey, status, evaluations)
      == Header(mode, dateKey, status, |evaluations|) + "\n" + Grid(evaluations)
  {
    ShareTextFull(Header(mode, dateKey, status, |evaluations|), evaluations);
  }

  /** The states of one guess as a reader of its row sees them. */
  function Displayed(e: Evaluation): seq<Option<LetterState>> {
    seq(|e.states|, j requires 0 <= j < |e.states| => Some(Shown(e.states[j])))
  }

  /** Reading one line of the grid back, glyph by glyph. */
  function ReadRow(line: string): seq<Option<LetterState>> {
    seq(|line|, j requires 0 <= j < |line| => ReadGlyph(line[j]))
  }

  /** Reading a share text back: its first line, and each further line read as a row. */
  function ReadShareText(text: string): (string, seq<seq<Option<LetterState>>>) {
    var lines := Split(text, '\n');
    (lines[0], seq(|lines| - 1, i requires 0 <= i < |lines| - 1 => ReadRow(lines[i + 1])))
  }

  /** A row reads back as the states it shows. */
  lemma ReadRowOfRow(e: Evaluation)
    ensures ReadRow(Row(e)) == Displayed(e)
  {
    forall j | 0 <= j < |e.states| {
      ReadGlyphOfGlyph(e.states[j]);
    }
  }

  /** The lines of a share text: the header, then one row per guess. */
  lemma ShareTextLines(header: string, evaluations: seq<Evaluation>)
    requires HeaderLine(header)
    requires |evaluations| > 0 ==> |evaluations[|evaluations| - 1].states| > 0
    ensures Split(ShareText(header, evaluations), '\n') == [header] + Rows(evaluations)
  {
    var rows := Rows(evaluations);
    if |evaluations| == 0 {
      ShareTextNoRows(header);
      SplitNoSeparator(header, '\n');
    } else {
      ShareTextFull(header, evaluations);
      var parts := [header] + rows;
      forall i | 0 <= i < |parts|
        ensures '\n' !in parts[i]
      {
        if i > 0 {
          assert parts[i] == Row(evaluations[i - 1]);
        }
      }
      assert Join(parts, "\n") == header + "\n" + Join(rows, "\n");
      SplitJoin(parts, '\n');
    }
  }

  /** Under any header line, the text reads back as that header and one row per guess. */
  lemma ShareTextReadsBack(header: string, evaluations: seq<Evaluation>)
    requires HeaderLine(header)
    requires |evaluations| > 0 ==> |evaluations[|evaluations| - 1].states| > 0
    ensures ReadShareText(ShareText(header, evaluations)).0 == header
    ensures |ReadShareText(ShareText(header, evaluations)).1| == |evaluations|
    ensures forall i :: 0 <= i < |evaluations| ==> ReadShareText(ShareText(header, evaluations)).1[i] == Displayed(evaluations[i])
  {
    ShareTextLines(header, evaluations);
    var lines := [header] + Rows(evaluations);
    forall i | 0 <= i < |evaluations|
      ensures ReadRow(lines[i + 1]) == Displayed(evaluations[i])
    {
      ReadRowOfRow(evaluations[i]);
    }
  }

  /** The share text reads back as its header plus one line per guess, in order, each line
      holding one glyph per state; only absent and empty become indistinguishable. */
  lemma ShareTextReadBack(mode: GameMode, dateKey: string, status: GameStatus, evaluations: seq<Evaluation>)
    requires '\n' !in dateKey
    requires |evaluations| > 0 ==> |evaluations[|evaluations| - 1].states| > 0
    ensures ReadShareText(BuildShareText(mode, dateKey, status, evaluations)).0 == Header(mode, dateKey, status, |evaluations|)
    ensures |ReadShareText(BuildShareText(mode, dateKey, status, evaluations)).1| == |evaluations|
    ensures forall i :: 0 <= i < |evaluations| ==>
      ReadShareText(BuildShareText(mode, dateKey, status, evaluations)).1[i] == Displayed(evaluations[i])
  {
    var header := Header(mode, dateKey, status, |evaluations|);
    HeaderIsHeaderLine(mode, dateKey, status, |evaluations|);
    ShareTextReadsBack(header, evaluations);
  }
}
