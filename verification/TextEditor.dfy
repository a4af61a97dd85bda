/** The editor's cursor in place: a pointer to a region and a column, moved along the list of regions. */
module TextEditor {
  import opened TextLines
  import opened TextCursor
  import opened TextRegions

  function RegionOf(rs: seq<Region>, i: int): Region? {
    if 0 <= i < |rs| then rs[i] else null
  }

  /** A region's position and last character, in the line. */
  lemma RegionInLine(rs: seq<Region>, j: nat, front: char)
    requires Linked(rs) && Full(rs) && j < |rs|
    ensures Buffered(rs) && rs[j].pos <= REGION && LineOf(rs).regions == |rs|
    ensures RegionLength(LineOf(rs), j) == rs[j].pos
    ensures LastOf(LineOf(rs), j, front) == if rs[j].pos > 0 then rs[j].buffer[rs[j].pos - 1] else front
  {
    hide Linked, Full, Length;
    TextOf(rs);
    RegionFacts(rs, j);
    if rs[j].pos > 0 {
      Neighbours(REGION * j + rs[j].pos - 1, j);
    }
  }

  /** advance_cursor_left inside a line: from a region of `rs`, as the list was before the last removal, which
      has left the line `l` in the regions `now`. */
  method AdvanceCursorLeft(tr: Region, cursorCol: nat, ghost rs: seq<Region>, ghost cur: Cursor,
                           ghost now: seq<Region>, ghost l: Line)
    returns (left: Region?, col: nat)
    requires Linked(now) && Full(now) && l == LineOf(now)
    requires 0 <= cur.region < |rs| && tr == rs[cur.region] && tr.prev == RegionOf(rs, cur.region - 1)
    requires cursorCol == cur.col > 0
    ensures Linked(now) && Full(now) && l == LineOf(now)
    ensures left == RegionOf(rs, Left(cur).region) && col == Left(cur).col
  {
    hide Linked, Full, LineOf;
    left := if cursorCol % REGION == 0 then tr.prev else tr;
    col := cursorCol - 1;
  }

  /** advance_cursor_right; at the line's end the cursor leaves the line or stays. */
  method AdvanceCursorRight(tr: Region, cursorCol: nat, front: char,
                            ghost rs: seq<Region>, ghost l: Line, ghost cur: Cursor)
    returns (moved: bool, right: Region?, col: nat)
    requires Linked(rs) && Full(rs) && l == LineOf(rs)
    requires Points(l, cur) && cursorCol == cur.col && cur.region < |rs| && tr == rs[cur.region]
    ensures Linked(rs) && Full(rs) && l == LineOf(rs) && moved == !AtLineEnd(l, cur, front)
    ensures moved ==> right == RegionOf(rs, Right(cur).region) && col == Right(cur).col
  {
    RegionInLine(rs, cur.region, front);
    RegionFacts(rs, cur.region);
    hide Linked, Full, LineOf, LastOf, RegionLength;
    var last := if tr.pos > 0 then tr.buffer[tr.pos - 1] else front;
    var at := cursorCol % REGION;
    if (at + 1 == tr.pos && last == '\n') || (at == tr.pos && last != '\n') {
      return false, tr, cursorCol;
    }
    right := if (cursorCol + 1) % REGION == 0 then tr.next else tr;
    return true, right, cursorCol + 1;
  }

  /** The walk that advance_cursor_up and advance_cursor_down begin with in the line they go to. */
  method WalkTo(first: Region, cursorCol: nat, ghost rs: seq<Region>, ghost l: Line)
    returns (tr: Region, posRead: nat, ghost j: nat)
    requires Linked(rs) && Full(rs) && first == rs[0] && l == LineOf(rs)
    ensures Linked(rs) && Full(rs) && l == LineOf(rs)
    ensures j == Walk(l, cursorCol) && tr == rs[j] && posRead == REGION * j
  {
    j := 0;
    posRead := 0;
    tr := first;
    RegionFacts(rs, 0);
    hide Linked, Full, Length, Buffered;
    while tr.next != null && posRead < cursorCol
      invariant j < |rs| && tr == rs[j] && posRead == REGION * j && tr.next == NextOf(rs, j)
      invariant Walk(l, cursorCol, j) == Walk(l, cursorCol)
      decreases |rs| - j
    {
      RegionFacts(rs, j);
      posRead := posRead + tr.pos;
      tr := tr.next;
      j := j + 1;
      RegionFacts(rs, j);
    }
  }

  /** That walk and the adjustment of the column. */
  method EnterLine(first: Region, cursorCol: nat, front: char, ghost rs: seq<Region>, ghost l: Line)
    returns (tr: Region, col: nat)
    requires Linked(rs) && Full(rs) && first == rs[0] && l == LineOf(rs)
    ensures var cur := Enter(l, cursorCol, front); tr == RegionOf(rs, cur.region) && col == cur.col
  {
    RegionInLine(rs, 0, front);
    var posRead;
    ghost var j;
    tr, posRead, j := WalkTo(first, cursorCol, rs, l);
    RegionInLine(rs, j, front);
    hide Linked, Full, LineOf, Walk, RegionLength, LastOf;
    posRead := posRead + tr.pos;
    var last := if tr.pos > 0 then tr.buffer[tr.pos - 1] else front;
    if posRead < cursorCol {
      col := if last == '\n' then Minus(posRead, 1) else posRead;
    } else if cursorCol > Minus(posRead, 2) {
      col := Minus(posRead, 1);
    } else {
      col := cursorCol;
    }
  }

  lemma TypeIs(s: State, k: Key)
    requires ValidLine(s.line) && Points(s.line, s.cur) && k.Type? && Printable(k.c)
    ensures var l := Append(s.line, s.cur.region, s.cur.col, k.c, k.beyond);
      && Points(l, s.cur) && (Enabled(s, k) <==> !AtLineEnd(l, s.cur, k.front))
      && (Enabled(s, k) ==> Press(s, k) == State(l, Right(s.cur)))
  {
  }

  lemma EraseIs(s: State, k: Key)
    requires ValidLine(s.line) && Points(s.line, s.cur) && k.Erase? && s.cur.col > 0
    ensures Enabled(s, k) <==> s.line.text != []
    ensures Enabled(s, k) ==>
      Press(s, k) == State(Remove(s.line, s.cur.region, s.cur.col, k.beyond), Left(s.cur))
  {
  }

  /** A region that the line still has is the one it had. */
  lemma SameRegion(rs: seq<Region>, rs': seq<Region>, l: Line, cur: Cursor)
    requires Linked(rs') && Full(rs') && l == LineOf(rs') && rs' <= rs
    ensures Points(l, cur) ==> RegionOf(rs', cur.region) == RegionOf(rs, cur.region)
  {
  }

  lemma PrevIs(rs: seq<Region>, j: nat)
    requires Linked(rs) && j < |rs|
    ensures rs[j].prev == RegionOf(rs, j - 1)
  {
  }

  /** A printable key: append_at_position in the cursor's region, then advance_cursor_right. */
  method TypeCharacter(tr: Region, cursorCol: nat, c: char, front: char,
                       ghost rs: seq<Region>, ghost j: nat, ghost s: State, ghost k: Key)
    returns (moved: bool, right: Region?, col: nat, ghost rs': seq<Region>)
    requires Linked(rs) && Full(rs) && j < |rs| && tr == rs[j] && Printable(c)
    requires s == State(LineOf(rs), Cursor(j, cursorCol)) && k == Type(c, Beyond(rs), front)
    modifies rs`pos, rs`next, Buffers(rs)
    ensures Linked(rs') && Full(rs') && rs <= rs' && moved == Enabled(s, k)
    ensures moved ==> var t := Press(s, k);
      LineOf(rs') == t.line && right == RegionOf(rs', t.cur.region) && col == t.cur.col
  {
    TextOf(rs);
    TypeIs(s, k);
    hide *;
    var ok;
    ok, rs' := AppendAtPosition(tr, cursorCol, c, rs, j);
    assert rs'[j] == rs[j];
    moved, right, col := AdvanceCursorRight(tr, cursorCol, front, rs', Typed(s, c, k.beyond), s.cur);
  }

  /** Backspace: remove_at_position in the cursor's region, then advance_cursor_left. The pointer is to the
      region that the cursor has moved to, also when the removal has just freed that region. */
  method EraseCharacter(tr: Region, cursorCol: nat, ghost rs: seq<Region>, ghost j: nat, ghost s: State, ghost k: Key)
    returns (ok: bool, left: Region?, col: nat, ghost rs': seq<Region>)
    requires Linked(rs) && Full(rs) && j < |rs| && tr == rs[j] && cursorCol > 0
    requires s == State(LineOf(rs), Cursor(j, cursorCol)) && k == Erase(Beyond(rs))
    modifies rs`pos, rs`next, Buffers(rs)
    ensures Linked(rs') && Full(rs') && rs' <= rs && ok == Enabled(s, k)
    ensures ok ==> var t := Press(s, k);
      && LineOf(rs') == t.line && col == t.cur.col && left == RegionOf(rs, t.cur.region)
      && (Points(t.line, t.cur) ==> left == RegionOf(rs', t.cur.region))
  {
    TextOf(rs);
    EraseIs(s, k);
    PrevIs(rs, j);
    hide *;
    left, col := tr, cursorCol;
    ok, rs' := RemoveAtPosition(tr, cursorCol, rs, j);
    if ok {
      left, col := AdvanceCursorLeft(tr, cursorCol, rs, s.cur, rs', Press(s, k).line);
      SameRegion(rs, rs', Press(s, k).line, Press(s, k).cur);
    }
  }
}
