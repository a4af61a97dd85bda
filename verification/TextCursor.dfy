/** The editor's cursor: which region goes with which column, and what the keys then do to a line. */
module TextCursor {
  import opened TextLines

  /** The region and the column that the cursor variables hold. A region that the line does not have is
      the null pointer. */
  datatype Cursor = Cursor(region: int, col: nat)

  predicate Points(l: Line, cur: Cursor) { 0 <= cur.region < l.regions }

  /** The region is the one that holds the column. */
  predicate Holds(cur: Cursor) { cur.region == cur.col / REGION }

  function RegionLength(l: Line, j: nat): (n: nat)
    requires ValidLine(l) && j < l.regions
    ensures n <= REGION && REGION * j + n <= |l.text|
  {
    if j + 1 < l.regions then REGION else |l.text| - REGION * j
  }

  /** The last character of a region; `front` is what lies in front of the buffer of an empty one. */
  function LastOf(l: Line, j: nat, front: char): char
    requires ValidLine(l) && j < l.regions
  {
    var n := RegionLength(l, j);
    if n > 0 then l.text[REGION * j + n - 1] else front
  }

  /** When advance_cursor_right leaves the line. */
  predicate AtLineEnd(l: Line, cur: Cursor, front: char)
    requires ValidLine(l) && Points(l, cur)
  {
    var n, at := RegionLength(l, cur.region), cur.col % REGION;
    (at + 1 == n && LastOf(l, cur.region, front) == '\n') || (at == n && LastOf(l, cur.region, front) != '\n')
  }

  /** advance_cursor_left and advance_cursor_right inside a line. */
  function Left(cur: Cursor): Cursor
    requires cur.col > 0
  {
    Cursor(if cur.col % REGION == 0 then cur.region - 1 else cur.region, cur.col - 1)
  }

  function Right(cur: Cursor): Cursor {
    Cursor(if (cur.col + 1) % REGION == 0 then cur.region + 1 else cur.region, cur.col + 1)
  }

  // ---------------------------------------------------------------- keys

  datatype State = State(line: Line, cur: Cursor)

  /** Keys in one line; `beyond` and `front` are the characters behind the text and in front of an empty
      region, as far as the key looks at them. */
  datatype Key =
    | LeftKey
    | RightKey(front: char)
    | Type(c: char, beyond: char, front: char)
    | Erase(beyond: char)

  function Typed(s: State, c: char, beyond: char): (l: Line)
    requires ValidLine(s.line) && Points(s.line, s.cur)
    ensures ValidLine(l) && Points(l, s.cur)
  {
    Append(s.line, s.cur.region, s.cur.col, c, beyond)
  }

  /** The key stays in the line and follows no null pointer. */
  predicate Enabled(s: State, k: Key) {
    && ValidLine(s.line)
    && match k
       case LeftKey => s.cur.col > 0 && (s.cur.col % REGION == 0 ==> Points(s.line, s.cur))
       case RightKey(front) => Points(s.line, s.cur) && !AtLineEnd(s.line, s.cur, front)
       case Type(c, beyond, front) =>
         Points(s.line, s.cur) && Printable(c) && !AtLineEnd(Typed(s, c, beyond), s.cur, front)
       case Erase(_) => Points(s.line, s.cur) && s.cur.col > 0 && s.line.text != []
  }

  /** A key press: the edit in the region that the cursor is in, then the move. */
  function Press(s: State, k: Key): (t: State)
    requires Enabled(s, k)
    ensures ValidLine(t.line)
  {
    match k
    case LeftKey => s.(cur := Left(s.cur))
    case RightKey(_) => s.(cur := Right(s.cur))
    case Type(c, beyond, _) => State(Typed(s, c, beyond), Right(s.cur))
    case Erase(beyond) => State(Remove(s.line, s.cur.region, s.cur.col, beyond), Left(s.cur))
  }

  predicate EnabledRun(s: State, ks: seq<Key>)
    decreases |ks|
  {
    ks == [] || (Enabled(s, ks[0]) && EnabledRun(Press(s, ks[0]), ks[1..]))
  }

  function Run(s: State, ks: seq<Key>): State
    requires EnabledRun(s, ks)
    decreases |ks|
  {
    if ks == [] then s else Run(Press(s, ks[0]), ks[1..])
  }

  /** A cursor that starts in the region that holds its column stays in such regions, whatever the keys
      do to the text. */
  lemma {:induction false} RegionFollowsColumn(s: State, ks: seq<Key>)
    requires EnabledRun(s, ks) && Holds(s.cur)
    ensures Holds(Run(s, ks).cur)
    decreases |ks|
  {
    if ks != [] {
      RegionFollowsColumn(Press(s, ks[0]), ks[1..]);
    }
  }

  /** So a backspace is handed the region of the cursor's column, and it removes the character before the
      cursor exactly when that is not the first column of a region, and the last region is not empty. */
  lemma BackspaceIff(n: nat, regions: nat, col: nat)
    requires Shape(n, regions) && 0 < col <= n && col / REGION < regions
    ensures RemovesBeforeColumn(n, regions, col / REGION, col)
       <==> col % REGION != 0 && n != REGION * (regions - 1)
  {
    RemovesIff(n, regions, col / REGION, col);
  }

  /** The text after a character has been typed and erased by backspace, with the cursor in the regions
      of its columns. */
  function TypedAndErased(l: Line, col: nat, c: char, beyond: char, beyond': char): string
    requires ValidLine(l) && col / REGION < l.regions
    requires (col + 1) / REGION < if |l.text| == REGION * l.regions then l.regions + 1 else l.regions
  {
    Remove(Append(l, col / REGION, col, c, beyond), (col + 1) / REGION, col + 1, beyond').text
  }

  /** Whatever a line of this shape holds, that restores it. */
  ghost predicate BackspaceUndoes(n: nat, regions: nat, col: nat)
    requires Shape(n, regions) && col <= n && col / REGION < regions
    requires (col + 1) / REGION < if n == REGION * regions then regions + 1 else regions
  {
    forall text: string, c, beyond, beyond' | |text| == n ::
      TypedAndErased(Line(text, regions), col, c, beyond, beyond') == text
  }

  /** It does exactly when typing has not moved the cursor on to the next region. */
  lemma BackspaceUndoesIff(n: nat, regions: nat, col: nat)
    requires Shape(n, regions) && col <= n && col / REGION < regions
    requires (col + 1) / REGION < if n == REGION * regions then regions + 1 else regions
    ensures BackspaceUndoes(n, regions, col) <==> (col + 1) % REGION != 0
  {
    hide TypedAndErased;
    if (col + 1) % REGION != 0 {
      forall text: string, c, beyond, beyond' | |text| == n
        ensures TypedAndErased(Line(text, regions), col, c, beyond, beyond') == text
      {
        TypedGoes(Line(text, regions), col, c, beyond, beyond');
      }
    } else {
      var text := seq(n, _ => 'a');
      TypedStays(Line(text, regions), col, 'b', 'a', 'a');
      var s := TypedAndErased(Line(text, regions), col, 'b', 'a', 'a');
      assert s != text by { assert col < n ==> text[col] == 'a'; }
    }
  }

  lemma TypedGoes(l: Line, col: nat, c: char, beyond: char, beyond': char)
    requires ValidLine(l) && col <= |l.text| && col / REGION < l.regions && (col + 1) % REGION != 0
    requires (col + 1) / REGION < if |l.text| == REGION * l.regions then l.regions + 1 else l.regions
    ensures TypedAndErased(l, col, c, beyond, beyond') == l.text
  {
    hide Append, Remove;
    assert (col + 1) / REGION == col / REGION;
    RemoveUndoesAppend(l, col, c, beyond, beyond');
  }

  lemma TypedStays(l: Line, col: nat, c: char, beyond: char, beyond': char)
    requires ValidLine(l) && col <= |l.text| && col / REGION < l.regions && (col + 1) % REGION == 0
    requires (col + 1) / REGION < if |l.text| == REGION * l.regions then l.regions + 1 else l.regions
    ensures var s := TypedAndErased(l, col, c, beyond, beyond'); col < |s| && s[col] == c
  {
    var typed := Append(l, col / REGION, col, c, beyond);
    assert typed.text == Inserted(l.text, col, c);
  }

  /** Which keys take the cursor to a region that the line does not have. */
  predicate LosesRegion(s: State, k: Key) {
    match k
    case LeftKey => false
    case RightKey(_) => s.cur.col + 1 == REGION * s.line.regions
    case Type(_, _, _) => s.cur.col == |s.line.text| && |s.line.text| + 1 == REGION * s.line.regions
    case Erase(_) => false
  }

  /** In the region of its column and on the text, the cursor is left on a null region exactly by typing
      the last character that the regions have room for, or by a step to the right behind the last place
      of the last region. */
  lemma LosesRegionIff(s: State, k: Key)
    requires Enabled(s, k) && Holds(s.cur) && s.cur.col <= |s.line.text|
    ensures !Points(Press(s, k).line, Press(s, k).cur) <==> LosesRegion(s, k)
  {
    hide Inserted, Removed, AtLineEnd;
  }

  /** The second way: a line that fills its regions and has no newline, and the cursor on its last
      character. */
  lemma RightLosesRegion(l: Line, front: char)
    requires ValidLine(l) && |l.text| == REGION * l.regions && l.text[|l.text| - 1] != '\n'
    ensures var s := State(l, Cursor(l.regions - 1, |l.text| - 1));
      && Holds(s.cur) && Enabled(s, RightKey(front))
      && !Points(l, Press(s, RightKey(front)).cur)
  {
  }

  /** Over every run, the cursor has a region of the line exactly as long as its column is one that the
      regions have. */
  lemma RunLosesRegionIff(s: State, ks: seq<Key>)
    requires EnabledRun(s, ks) && Holds(s.cur) && ValidLine(s.line)
    ensures var t := Run(s, ks); Points(t.line, t.cur) <==> t.cur.col < REGION * t.line.regions
  {
    RegionFollowsColumn(s, ks);
  }

  // ---------------------------------------------------------------- the flat editor

  datatype FlatState = FlatState(text: string, col: nat)

  predicate Fits(s: FlatState, k: Key) {
    match k
    case LeftKey => s.col > 0
    case RightKey(_) => s.col < |s.text|
    case Type(_, _, _) => s.col <= |s.text|
    case Erase(_) => 0 < s.col <= |s.text|
  }

  function FlatPress(s: FlatState, k: Key): FlatState
    requires Fits(s, k)
  {
    match k
    case LeftKey => s.(col := s.col - 1)
    case RightKey(_) => s.(col := s.col + 1)
    case Type(c, _, _) => FlatState(Inserted(s.text, s.col, c), s.col + 1)
    case Erase(_) => FlatState(Removed(s.text, s.col - 1), s.col - 1)
  }

  predicate FlatFits(s: FlatState, ks: seq<Key>)
    decreases |ks|
  {
    ks == [] || (Fits(s, ks[0]) && FlatFits(FlatPress(s, ks[0]), ks[1..]))
  }

  function FlatRun(s: FlatState, ks: seq<Key>): FlatState
    requires FlatFits(s, ks)
    decreases |ks|
  {
    if ks == [] then s else FlatRun(FlatPress(s, ks[0]), ks[1..])
  }

  function FlatOf(s: State): FlatState { FlatState(s.line.text, s.cur.col) }

  /** A newline can only be the last character, and the cursor is not behind it. */
  predicate OnText(s: State) {
    && s.cur.col <= |s.line.text|
    && (forall i :: 0 <= i < |s.line.text| - 1 ==> s.line.text[i] != '\n')
    && (s.cur.col == |s.line.text| > 0 ==> s.line.text[s.cur.col - 1] != '\n')
  }

  predicate Safe(s: State, k: Key)
    requires ValidLine(s.line)
  {
    && (k.Erase? ==> s.cur.col % REGION != 0 && !EmptyTail(s.line))
    && (k.RightKey? ==> k.front != '\n')
  }

  /** No key is a backspace in the first column of a region, or one while the last region is empty; and
      what lies in front of a region's buffer, the allocator's header, does not end in a newline. */
  predicate SafeRun(s: State, ks: seq<Key>)
    requires EnabledRun(s, ks)
    decreases |ks|
  {
    ks == [] ||
    (Safe(s, ks[0]) && SafeRun(Press(s, ks[0]), ks[1..]))
  }

  /** A typed character goes to the column. */
  lemma TypeRefines(s: State, c: char, beyond: char)
    requires ValidLine(s.line) && Points(s.line, s.cur) && Holds(s.cur) && OnText(s) && Printable(c)
    ensures Typed(s, c, beyond).text == Inserted(s.line.text, s.cur.col, c)
    ensures OnText(State(Typed(s, c, beyond), Right(s.cur)))
  {
    assert Place(s.cur.region, s.cur.col) == s.cur.col;
  }

  /** An erased one is the one before the column. */
  lemma EraseRefines(s: State, beyond: char)
    requires ValidLine(s.line) && Points(s.line, s.cur) && Holds(s.cur) && OnText(s)
    requires s.cur.col % REGION != 0 && !EmptyTail(s.line)
    ensures var l := Remove(s.line, s.cur.region, s.cur.col, beyond);
      l.text == Removed(s.line.text, s.cur.col - 1) && OnText(State(l, Left(s.cur)))
  {
    var i := s.cur.col - 1;
    var l := Remove(s.line, s.cur.region, s.cur.col, beyond);
    assert Place(s.cur.region, i) == i;
    assert l.text == Removed(s.line.text, i);
    if i == |l.text| > 0 {
      assert l.text[i - 1] == s.line.text[i - 1];
    }
  }

  /** The test of advance_cursor_right on the flat text: the cursor leaves the line at the end of a text
      without a newline and on the newline of one with it, and nowhere else. */
  lemma AtLineEndIff(s: State, front: char)
    requires ValidLine(s.line) && Points(s.line, s.cur) && Holds(s.cur) && OnText(s)
    requires front != '\n' || !EmptyTail(s.line)
    ensures AtLineEnd(s.line, s.cur, front)
       <==> s.cur.col == |s.line.text| || (s.cur.col + 1 == |s.line.text| && s.line.text[s.cur.col] == '\n')
  {
    var j, n := s.cur.region, RegionLength(s.line, s.cur.region);
    assert s.cur.col == REGION * j + s.cur.col % REGION;
    if n > 0 && REGION * j + n < |s.line.text| {
      assert s.line.text[REGION * j + n - 1] != '\n';
    }
  }

  /** A character can be typed at every place of the text, and the cursor moves on behind it. */
  lemma TypingMovesOn(s: State, c: char, beyond: char, front: char)
    requires ValidLine(s.line) && Points(s.line, s.cur) && Holds(s.cur) && OnText(s) && Printable(c)
    ensures Enabled(s, Type(c, beyond, front))
    ensures FlatOf(Press(s, Type(c, beyond, front))) == FlatState(Inserted(s.line.text, s.cur.col, c), s.cur.col + 1)
  {
    hide AtLineEnd, Append, Inserted;
    TypeRefines(s, c, beyond);
    var l := Typed(s, c, beyond);
    assert l.text == Inserted(s.line.text, s.cur.col, c);
    AtLineEndIff(State(l, s.cur), front);
  }

  /** The cursor does not leave the text to the right. */
  lemma RightRefines(s: State, front: char)
    requires ValidLine(s.line) && Points(s.line, s.cur) && Holds(s.cur) && OnText(s) && front != '\n'
    requires !AtLineEnd(s.line, s.cur, front)
    ensures s.cur.col < |s.line.text| && OnText(s.(cur := Right(s.cur)))
  {
    var j, n := s.cur.region, RegionLength(s.line, s.cur.region);
    assert s.cur.col == REGION * j + s.cur.col % REGION;
    assert LastOf(s.line, j, front) == '\n' ==> n > 0;
  }

  lemma PressRefines(s: State, k: Key)
    requires Enabled(s, k) && Holds(s.cur) && OnText(s) && Safe(s, k)
    ensures Fits(FlatOf(s), k) && FlatPress(FlatOf(s), k) == FlatOf(Press(s, k)) && OnText(Press(s, k))
  {
    hide OnText, AtLineEnd, Inserted, Removed, Append, Remove;
    assert s.cur.col <= |s.line.text| && (k.LeftKey? ==> OnText(Press(s, k))) by { LeftRefines(s); }
    match k
    case LeftKey =>
    case RightKey(front) => RightRefines(s, front);
    case Type(c, beyond, _) => TypeRefines(s, c, beyond);
    case Erase(beyond) => EraseRefines(s, beyond);
  }

  lemma LeftRefines(s: State)
    requires OnText(s)
    ensures s.cur.col <= |s.line.text| && (s.cur.col > 0 ==> OnText(s.(cur := Left(s.cur))))
  {
  }

  /** Over every run of such keys the chunked line with its cursor is the flat text with its column. */
  lemma {:induction false} KeysRefineFlat(s: State, ks: seq<Key>)
    requires EnabledRun(s, ks) && SafeRun(s, ks) && Holds(s.cur) && OnText(s)
    ensures FlatFits(FlatOf(s), ks) && FlatOf(Run(s, ks)) == FlatRun(FlatOf(s), ks)
    decreases |ks|
  {
    if ks != [] {
      PressRefines(s, ks[0]);
      KeysRefineFlat(Press(s, ks[0]), ks[1..]);
    }
  }

  // ---------------------------------------------------------------- coming from another line

  /** Subtraction of size_t values. */
  function Minus(a: nat, b: nat): nat
    requires b <= 0x1_0000_0000
  {
    if a >= b then a - b else a + 0x1_0000_0000 - b
  }

  /** Where the walk over the regions of the new line stops that advance_cursor_up and
      advance_cursor_down begin with. */
  function Walk(l: Line, col: nat, j: nat := 0): (r: nat)
    requires ValidLine(l) && j < l.regions
    ensures j <= r < l.regions && (r + 1 == l.regions || col <= REGION * r) && (r > j ==> REGION * (r - 1) < col)
    decreases l.regions - j
  {
    if j + 1 < l.regions && REGION * j < col then Walk(l, col, j + 1) else j
  }

  /** The cursor in a line that it enters from above or below at column `col`. */
  function Enter(l: Line, col: nat, front: char): Cursor
    requires ValidLine(l)
  {
    var j := Walk(l, col);
    var read := REGION * j + RegionLength(l, j);
    if read < col then Cursor(j, if LastOf(l, j, front) == '\n' then Minus(read, 1) else read)
    else if col > Minus(read, 2) then Cursor(j, Minus(read, 1))
    else Cursor(j, col)
  }

  /** The cursor in a line that it enters from the start of the next one. */
  function EnterEnd(l: Line): Cursor
    requires ValidLine(l)
  {
    Cursor(l.regions - 1, Minus(|l.text|, 2))
  }

  /** When the cursor is in the region of its column after entering a line at column `col`. */
  predicate EntersWell(l: Line, col: nat, front: char)
    requires ValidLine(l)
  {
    if |l.text| < 2 then !(l.text == [] && col > 0 && front == '\n')
    else if col + 2 <= |l.text| then col % REGION == 0 || col / REGION + 1 == l.regions
    else if col > |l.text| && LastOf(l, l.regions - 1, front) != '\n' then |l.text| < REGION * l.regions
    else !EmptyTail(l)
  }

  /** Entered well inside the line, that is when the column is the first of a region or lies in the last one;
      entered behind its end, without a newline there, when the line does not fill its regions; and else
      when its last region is not empty. A line of no characters fails where the subtraction wraps. */
  lemma EntersRegionIff(l: Line, col: nat, front: char)
    requires ValidLine(l)
    ensures Holds(Enter(l, col, front)) <==> EntersWell(l, col, front)
  {
    if col + 2 <= |l.text| {
      EntersInside(l, col, front);
    } else {
      EntersAtEnd(l, col, front);
    }
  }

  /** Well inside, the column is kept, and the wrong region is the next one. */
  lemma EntersInside(l: Line, col: nat, front: char)
    requires ValidLine(l) && col + 2 <= |l.text|
    ensures var cur := Enter(l, col, front);
      && cur.col == col
      && (Holds(cur) <==> col % REGION == 0 || col / REGION + 1 == l.regions)
      && (!Holds(cur) ==> cur.region == col / REGION + 1)
  {
  }

  /** At the end or behind it the walk stops in the last region. */
  lemma EntersAtEnd(l: Line, col: nat, front: char)
    requires ValidLine(l) && col + 2 > |l.text|
    ensures Enter(l, col, front) == Cursor(l.regions - 1,
      if col > |l.text| then (if LastOf(l, l.regions - 1, front) == '\n' then Minus(|l.text|, 1) else |l.text|)
      else if |l.text| >= 2 then |l.text| - 1 else col)
  {
    assert REGION * (l.regions - 1) + RegionLength(l, l.regions - 1) == |l.text|;
  }

  /** Entered from the start of the next line, the cursor is in the region of its column if and only if the
      last region holds two characters; with fewer than two in the line the subtraction wraps. */
  lemma EntersEndRegionIff(l: Line)
    requires ValidLine(l)
    ensures Holds(EnterEnd(l)) <==> |l.text| >= REGION * (l.regions - 1) + 2
    ensures EnterEnd(l).col == if |l.text| >= 2 then |l.text| - 2 else |l.text| + 0xFFFF_FFFE
  {
  }

  /** Entered at its last character or its end, a line with an empty last region puts the cursor there,
      and what is typed is lost behind the text. */
  lemma EnteringEmptyTail(l: Line, col: nat, front: char, c: char, beyond: char)
    requires ValidLine(l) && EmptyTail(l) && l.regions > 1 && |l.text| - 1 <= col <= |l.text|
    ensures Enter(l, col, front) == Cursor(l.regions - 1, |l.text| - 1) && !Holds(Enter(l, col, front))
    ensures Append(l, l.regions - 1, |l.text| - 1, c, beyond).text == l.text + [beyond]
  {
  }

  /** Then a typed character goes 128 places too far, or is lost behind the text. */
  lemma TypingAfterEntering(l: Line, col: nat, front: char, c: char, beyond: char)
    requires ValidLine(l) && col + 2 <= |l.text| && !Holds(Enter(l, col, front))
    ensures Points(l, Enter(l, col, front))
    ensures Append(l, Enter(l, col, front).region, col, c, beyond).text
         == if col + REGION <= |l.text| then Inserted(l.text, col + REGION, c) else l.text + [beyond]
  {
    EntersInside(l, col, front);
  }

  /** Entered behind the end of a line that fills its regions and has no newline, typing inserts at the
      front of the last region. */
  lemma EnteringFullLine(l: Line, col: nat, front: char, c: char, beyond: char)
    requires ValidLine(l) && |l.text| == REGION * l.regions && l.text[|l.text| - 1] != '\n' && col > |l.text|
    ensures Enter(l, col, front) == Cursor(l.regions - 1, |l.text|) && !Holds(Enter(l, col, front))
    ensures Append(l, l.regions - 1, |l.text|, c, beyond).text == Inserted(l.text, REGION * (l.regions - 1), c)
  {
  }
}
