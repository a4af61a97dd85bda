/** The editor's line in place: regions of 128 characters, doubly linked, shifted by loops. */
module TextRegions {
  import opened TextLines

  class Region {
    const buffer: array<char>
    var pos: nat
    var next: Region?
    var prev: Region?

    /** alloc_text_region */
    constructor ()
      ensures buffer.Length == REGION && fresh(buffer) && pos == 0 && next == null && prev == null
    {
      buffer := new char[REGION](_ => '\0');
      pos, next, prev := 0, null, null;
    }
  }

  // ---------------------------------------------------------------- the list

  function NextOf(rs: seq<Region>, i: nat): Region?
    requires i < |rs|
  {
    if i + 1 < |rs| then rs[i + 1] else null
  }

  function PrevOf(rs: seq<Region>, i: nat): Region?
    requires i < |rs|
  {
    if i > 0 then rs[i - 1] else null
  }

  /** `rs` are the regions of a line in order, linked both ways, with buffers of their own. */
  ghost predicate Linked(rs: seq<Region>)
    reads rs`next, rs`prev
  {
    && |rs| > 0
    && Buffered(rs)
    && (forall i, j :: 0 <= i < j < |rs| ==> rs[i] != rs[j] && rs[i].buffer != rs[j].buffer)
    && (forall i :: 0 <= i < |rs| ==> rs[i].next == NextOf(rs, i) && rs[i].prev == PrevOf(rs, i))
  }

  /** All regions but the last are full. */
  ghost predicate Full(rs: seq<Region>)
    requires |rs| > 0
    reads rs`pos
  {
    (forall i :: 0 <= i < |rs| - 1 ==> rs[i].pos == REGION) && rs[|rs| - 1].pos <= REGION
  }

  ghost function Buffers(rs: seq<Region>): set<array<char>> {
    set i | 0 <= i < |rs| :: rs[i].buffer
  }

  ghost predicate Buffered(rs: seq<Region>) {
    forall i :: 0 <= i < |rs| ==> rs[i].buffer.Length == REGION
  }

  /** Character `k` of the buffers one behind the other. */
  ghost function At(rs: seq<Region>, k: nat): char
    requires k < REGION * |rs| && Buffered(rs)
    reads Buffers(rs)
  {
    rs[k / REGION].buffer[k % REGION]
  }

  ghost function Length(rs: seq<Region>): nat
    requires |rs| > 0
    reads rs`pos
  {
    REGION * (|rs| - 1) + rs[|rs| - 1].pos
  }

  ghost function Cells(rs: seq<Region>): (s: string)
    requires Buffered(rs)
    reads Buffers(rs)
    ensures |s| == REGION * |rs| && forall k :: 0 <= k < |s| ==> s[k] == At(rs, k)
  {
    seq(REGION * |rs|, k requires 0 <= k < REGION * |rs| && Buffered(rs) reads Buffers(rs) => At(rs, k))
  }

  ghost function LineOf(rs: seq<Region>): (l: Line)
    requires |rs| > 0 && Buffered(rs) && Full(rs)
    reads rs`pos, Buffers(rs)
    ensures ValidLine(l)
  {
    Line(Cells(rs)[..Length(rs)], |rs|)
  }

  /** What write_file writes: each region's buffer up to its position. */
  ghost function Saved(rs: seq<Region>): string
    requires forall i :: 0 <= i < |rs| ==> rs[i].buffer.Length == REGION && rs[i].pos <= REGION
    reads rs`pos, Buffers(rs)
  {
    if rs == [] then "" else Saved(rs[..|rs| - 1]) + rs[|rs| - 1].buffer[..rs[|rs| - 1].pos]
  }

  /** The first `n` regions, when they are full, are saved as the first 128 * n characters. */
  lemma {:induction false} SavedPrefix(rs: seq<Region>, n: nat)
    requires Buffered(rs) && n <= |rs| && forall i :: 0 <= i < n ==> rs[i].pos == REGION
    ensures forall i :: 0 <= i < n ==> rs[..n][i].buffer.Length == REGION && rs[..n][i].pos == REGION
    ensures Saved(rs[..n]) == Cells(rs)[..REGION * n]
  {
    if n > 0 {
      SavedPrefix(rs, n - 1);
      assert rs[..n][..n - 1] == rs[..n - 1];
      CellsOfRegion(rs, n - 1, REGION);
    }
  }

  /** The first `l` characters of region `m` in the flat text. */
  lemma CellsOfRegion(rs: seq<Region>, m: nat, l: nat)
    requires Buffered(rs) && m < |rs| && l <= REGION
    ensures Cells(rs)[..REGION * m + l] == Cells(rs)[..REGION * m] + rs[m].buffer[..l]
  {
    forall i | 0 <= i < l ensures Cells(rs)[REGION * m + i] == rs[m].buffer[i] {
      Neighbours(REGION * m + i, m);
    }
  }

  /** The flat text of a line is what is saved for it. */
  lemma SavedIsText(rs: seq<Region>)
    requires |rs| > 0 && Buffered(rs) && Full(rs)
    ensures Saved(rs) == LineOf(rs).text
  {
    var n := |rs| - 1;
    SavedPrefix(rs, n);
    CellsOfRegion(rs, n, rs[n].pos);
  }

  // ---------------------------------------------------------------- shifting one region

  /** The characters of the buffer from `from` on are one further to the right. */
  twostate predicate MovedOne(b: array<char>, from: nat, pos: nat)
    requires b.Length == REGION && pos <= REGION
    reads b
  {
    forall i :: 0 <= i < REGION ==> b[i] == if from < i <= pos then old(b[i - 1]) else old(b[i])
  }

  /** The buffer has taken the last character of the one before, if `carried`. */
  twostate predicate Received(b: array<char>, from: array<char>, carried: bool)
    requires b.Length == from.Length == REGION
    reads b
  {
    forall i :: 0 <= i < REGION ==> b[i] == if i == 0 && carried then old(from[REGION - 1]) else old(b[i])
  }

  /** One pass of the loops of append_at_position: characters from `from` on move one to the right, the
      128th into the next region. */
  method ShiftRight(r: Region, from: nat)
    requires r.buffer.Length == REGION && from <= REGION && r.pos <= REGION
    requires r.pos == REGION && from < REGION ==> r.next != null
    requires r.next != null ==> r.next.buffer.Length == REGION && r.next.buffer != r.buffer
    modifies r.buffer, if r.next != null then {r.next.buffer} else {}
    ensures MovedOne(r.buffer, from, r.pos)
    ensures r.next != null ==> Received(r.next.buffer, r.buffer, r.pos == REGION && from < REGION)
  {
    var i: int := r.pos - 1;
    while i >= from
      invariant (if from <= r.pos then from - 1 <= i <= r.pos - 1 else i == r.pos - 1)
      invariant forall k :: 0 <= k < REGION ==>
        r.buffer[k] == if i + 1 < k <= r.pos then old(r.buffer[k - 1]) else old(r.buffer[k])
      invariant r.next != null ==> forall k :: 0 <= k < REGION ==>
        r.next.buffer[k] ==
          if k == 0 && i < r.pos - 1 && r.pos == REGION then old(r.buffer[REGION - 1]) else old(r.next.buffer[k])
    {
      if i + 1 != REGION {
        r.buffer[i + 1] := r.buffer[i];
      } else {
        r.next.buffer[0] := r.buffer[i];
      }
      i := i - 1;
    }
  }

  /** One pass of the loops of remove_at_position: characters behind `from` move one to the left, the
      128th coming from the next region. */
  method ShiftLeft(r: Region, from: nat)
    requires r.buffer.Length == REGION && r.pos <= REGION
    requires r.next != null ==> r.next.buffer.Length == REGION && r.next.buffer != r.buffer
    modifies r.buffer
    ensures forall i :: 0 <= i < REGION ==>
      r.buffer[i] == (if from <= i < r.pos && i + 1 < REGION then old(r.buffer[i + 1])
                      else if from <= i < r.pos && r.next != null then r.next.buffer[0]
                      else old(r.buffer[i]))
  {
    var i := from;
    while i < r.pos
      invariant from <= i && (if from <= r.pos then i <= r.pos else i == from)
      invariant forall k :: 0 <= k < REGION ==>
        r.buffer[k] == (if from <= k < i && k + 1 < REGION then old(r.buffer[k + 1])
                        else if from <= k < i && r.next != null then r.next.buffer[0]
                        else old(r.buffer[k]))
    {
      if i + 1 < REGION {
        r.buffer[i] := r.buffer[i + 1];
      } else if r.next != null {
        r.buffer[i] := r.next.buffer[0];
      }
      i := i + 1;
    }
  }

  // ---------------------------------------------------------------- shifting in the flat text

  lemma NextRegion(rs: seq<Region>, m: nat)
    requires Linked(rs) && m < |rs|
    ensures rs[m].buffer in Buffers(rs) && rs[m].buffer.Length == REGION
    ensures if m + 1 < |rs| then rs[m].next == rs[m + 1] && rs[m + 1].buffer in Buffers(rs) else rs[m].next == null
    ensures m + 1 < |rs| ==> rs[m + 1].buffer.Length == REGION && rs[m + 1].buffer != rs[m].buffer
    ensures forall i :: 0 <= i < |rs| && i != m ==> rs[i].buffer != rs[m].buffer
    ensures forall i :: 0 <= i < |rs| && i != m + 1 && m + 1 < |rs| ==> rs[i].buffer != rs[m + 1].buffer
  {
  }

  /** The place before and the place behind a place, by region and index. */
  lemma Neighbours(k: nat, m: nat)
    ensures k / REGION == m <==> REGION * m <= k < REGION * m + REGION
    ensures k / REGION == m ==> k == REGION * m + k % REGION
    ensures k % REGION > 0 ==> (k - 1) / REGION == k / REGION && (k - 1) % REGION == k % REGION - 1
    ensures k > 0 && k % REGION == 0 ==> (k - 1) / REGION == k / REGION - 1 && (k - 1) % REGION == REGION - 1
    ensures k % REGION < REGION - 1 ==> (k + 1) / REGION == k / REGION && (k + 1) % REGION == k % REGION + 1
    ensures k % REGION == REGION - 1 ==> (k + 1) / REGION == k / REGION + 1 && (k + 1) % REGION == 0
  {
  }

  /** Which places a pass over region `m` moves a character to, and from where. */
  lemma MovedRight(k: nat, m: nat, from: nat, pos: nat)
    requires from <= REGION && pos <= REGION
    ensures var moved := REGION * m + from < k <= REGION * m + pos;
      && (k / REGION == m ==> (moved <==> from < k % REGION <= pos))
      && (k / REGION == m + 1 ==> (moved <==> k % REGION == 0 && pos == REGION && from < REGION))
      && (k / REGION != m && k / REGION != m + 1 ==> !moved)
      && (moved ==> k > 0 && (k - 1) / REGION == m
                    && (k - 1) % REGION == if k / REGION == m then k % REGION - 1 else REGION - 1)
  {
    Neighbours(k, m);
    Neighbours(k, m + 1);
  }

  lemma MovedLeft(k: nat, m: nat, from: nat, pos: nat)
    requires pos <= REGION
    ensures var moved := REGION * m + from <= k < REGION * m + pos;
      && (k / REGION == m ==> (moved <==> from <= k % REGION < pos))
      && (k / REGION != m ==> !moved)
      && (moved ==> (k + 1) / REGION == (if k % REGION + 1 < REGION then m else m + 1)
                    && (k + 1) % REGION == if k % REGION + 1 < REGION then k % REGION + 1 else 0)
  {
    Neighbours(k, m);
  }

  /** The same pass over region `m` of a line, seen in the characters of the whole line. */
  method ShiftRegionRight(ghost rs: seq<Region>, ghost m: nat, r: Region, from: nat)
    requires Linked(rs) && Full(rs) && m < |rs| && r == rs[m] && from <= REGION
    requires m == |rs| - 1 ==> r.pos < REGION
    modifies Buffers(rs)
    ensures Cells(rs) == ShiftedRight(old(Cells(rs)), REGION * m + from, REGION * m + r.pos)
  {
    NextRegion(rs, m);
    hide Linked, Full;
    ShiftRight(r, from);
    forall k: nat | k < REGION * |rs|
      ensures At(rs, k) == if REGION * m + from < k <= REGION * m + r.pos then old(At(rs, k - 1)) else old(At(rs, k))
    {
      MovedRight(k, m, from, r.pos);
      if k / REGION == m {
      } else if k / REGION == m + 1 {
      } else {
        assert At(rs, k) == old(At(rs, k));
      }
    }
  }

  method ShiftRegionLeft(ghost rs: seq<Region>, ghost m: nat, r: Region, from: nat)
    requires Linked(rs) && Full(rs) && m < |rs| && r == rs[m]
    modifies Buffers(rs)
    ensures Cells(rs) == ShiftedLeft(old(Cells(rs)), REGION * m + from, REGION * m + r.pos)
  {
    NextRegion(rs, m);
    hide Linked, Full;
    ghost var before := Cells(rs);
    ShiftLeft(r, from);
    forall k: nat | k < REGION * |rs|
      ensures Cells(rs)[k] == ShiftedLeft(before, REGION * m + from, REGION * m + r.pos)[k]
    {
      MovedLeft(k, m, from, r.pos);
      assert before[k] == old(At(rs, k)) && (k + 1 < |before| ==> before[k + 1] == old(At(rs, k + 1)));
    }
  }

  /** The first loop of append_at_position. */
  method LastRegion(ghost rs: seq<Region>, ghost j: nat, tr: Region) returns (last: Region)
    requires Linked(rs) && j < |rs| && tr == rs[j]
    ensures last == rs[|rs| - 1]
  {
    last := tr;
    ghost var m := j;
    while last.next != null
      invariant j <= m < |rs| && last == rs[m]
      decreases |rs| - m
    {
      NextRegion(rs, m);
      last := last.next;
      m := m + 1;
    }
    NextRegion(rs, m);
  }

  /** A region linked behind the last one. */
  lemma LinkedLonger(rs: seq<Region>, r: Region)
    requires |rs| > 0 && Buffered(rs) && r.buffer.Length == REGION && r.pos == 0
    requires forall i, j :: 0 <= i < j < |rs| ==> rs[i] != rs[j] && rs[i].buffer != rs[j].buffer
    requires forall i :: 0 <= i < |rs| ==> rs[i] != r && rs[i].buffer != r.buffer && rs[i].prev == PrevOf(rs, i)
    requires forall i :: 0 <= i < |rs| ==> rs[i].pos == REGION && (i + 1 < |rs| ==> rs[i].next == rs[i + 1])
    requires rs[|rs| - 1].next == r && r.prev == rs[|rs| - 1] && r.next == null
    ensures Linked(rs + [r]) && Full(rs + [r]) && Length(rs + [r]) == REGION * |rs|
  {
    var more := rs + [r];
    forall i | 0 <= i < |more| ensures more[i].next == NextOf(more, i) {
      if i < |rs| {
        assert more[i] == rs[i] && rs[i].pos == REGION;
      }
    }
    forall i | 0 <= i < |more| ensures more[i].prev == PrevOf(more, i) {
      if i < |rs| {
        assert more[i] == rs[i] && PrevOf(more, i) == PrevOf(rs, i);
      }
    }
  }

  lemma CellsOfLonger(rs: seq<Region>, r: Region)
    requires Buffered(rs) && r.buffer.Length == REGION
    ensures Buffered(rs + [r]) && Cells(rs + [r])[..REGION * |rs|] == Cells(rs)
  {
    forall k: nat | k < REGION * |rs| ensures At(rs + [r], k) == At(rs, k) {
      Neighbours(k, k / REGION);
    }
  }

  /** The full last region gets a successor. */
  method AddRegion(ghost rs: seq<Region>, last: Region) returns (r: Region)
    requires Linked(rs) && Full(rs) && last == rs[|rs| - 1] && last.pos == REGION
    modifies last`next
    ensures fresh(r) && fresh(r.buffer) && r.pos == 0 && r !in rs
    ensures Linked(rs + [r]) && Full(rs + [r]) && Length(rs + [r]) == REGION * |rs|
  {
    r := new Region();
    last.next := r;
    r.prev := last;
    LinkedLonger(rs, r);
  }

  /** Behind a full last region there is a new one. */
  method EnsureRoom(ghost rs: seq<Region>, last: Region) returns (r: Region, ghost rs': seq<Region>)
    requires Linked(rs) && Full(rs) && last == rs[|rs| - 1]
    modifies last`next
    ensures Linked(rs') && Full(rs') && Buffered(rs') && r == rs'[|rs'| - 1] && r.pos < REGION
    ensures if last.pos == REGION then |rs'| == |rs| + 1 && rs' == rs + [r] && fresh(r) && fresh(r.buffer)
            else rs' == rs
    ensures Length(rs') == old(Length(rs)) && Cells(rs')[..REGION * |rs|] == old(Cells(rs))
  {
    r, rs' := last, rs;
    if last.pos == REGION {
      r := AddRegion(rs, last);
      rs' := rs + [r];
      CellsOfLonger(rs, r);
    }
  }

  lemma RegionFacts(rs: seq<Region>, m: nat)
    requires Linked(rs) && Full(rs) && m < |rs|
    ensures rs[m].pos <= REGION && (m < |rs| - 1 ==> rs[m].pos == REGION)
    ensures rs[m].next == NextOf(rs, m) && rs[m].prev == PrevOf(rs, m)
    ensures forall i :: 0 <= i < |rs| && rs[i] == rs[m] ==> i == m
    ensures Buffered(rs) && REGION * m + rs[m].pos <= Length(rs)
    ensures REGION * m + rs[m].pos == if m < |rs| - 1 then REGION * (m + 1) else Length(rs)
  {
  }

  /** The loops of append_at_position from the last region back to `tr`. */
  method ShiftRestRight(ghost rs: seq<Region>, ghost j: nat, tr: Region, last: Region, from: nat)
    requires Linked(rs) && Full(rs) && j < |rs| && tr == rs[j] && last == rs[|rs| - 1]
    requires last.pos < REGION && from < REGION
    modifies Buffers(rs)
    ensures Cells(rs) == ShiftedRight(old(Cells(rs)), REGION * j + from, Length(rs))
  {
    hide Linked, Full, Cells, ShiftedRight, Length, Buffers, At, NextOf;
    ghost var m := |rs| - 1;
    RegionFacts(rs, m);
    ghost var before, n := Cells(rs), Length(rs);
    var tmp := last;
    NoShift(before, n);
    while tmp != tr
      invariant j <= m < |rs| && tmp == rs[m]
      invariant Cells(rs) == ShiftedRight(before, if m < |rs| - 1 then REGION * (m + 1) else n, n)
      decreases m
    {
      RegionFacts(rs, m);
      RegionFacts(rs, j);
      ShiftRegionRight(rs, m, tmp, 0);
      ShiftsRight(before, REGION * m, REGION * m + tmp.pos, n);
      m := m - 1;
      tmp := tmp.prev;
    }
    RegionFacts(rs, m);
    RegionFacts(rs, j);
    ShiftRegionRight(rs, j, tr, from);
    if from <= tr.pos {
      ShiftsRight(before, REGION * j + from, REGION * j + tr.pos, n);
    }
  }

  /** The character goes into the gap. */
  method PutInGap(tr: Region, i: nat, c: char, ghost rs: seq<Region>, ghost j: nat)
    requires Linked(rs) && j < |rs| && tr == rs[j] && i < REGION
    modifies tr.buffer
    ensures Cells(rs) == old(Cells(rs))[REGION * j + i := c]
  {
    NextRegion(rs, j);
    hide Linked;
    tr.buffer[i] := c;
    forall k: nat | k < REGION * |rs| ensures At(rs, k) == if k == REGION * j + i then c else old(At(rs, k)) {
      Neighbours(k, j);
    }
  }

  /** The last region holds one more. */
  method CountOneMore(last: Region, ghost rs: seq<Region>)
    requires Linked(rs) && Full(rs) && last == rs[|rs| - 1] && last.pos < REGION
    modifies last`pos
    ensures Full(rs) && Length(rs) == old(Length(rs)) + 1
  {
    last.pos := last.pos + 1;
  }

  /** All of append_at_position behind the allocation. */
  method InsertWithRoom(tr: Region, last: Region, i: nat, c: char, ghost rs: seq<Region>, ghost j: nat)
    requires Linked(rs) && Full(rs) && j < |rs| && tr == rs[j] && last == rs[|rs| - 1] && last.pos < REGION
    requires i < REGION
    modifies Buffers(rs), last`pos
    ensures Full(rs) && Length(rs) == old(Length(rs)) + 1
    ensures Cells(rs) == ShiftedRight(old(Cells(rs)), REGION * j + i, old(Length(rs)))[REGION * j + i := c]
  {
    hide Linked, Full, Cells, ShiftedRight, Length;
    NextRegion(rs, j);
    ShiftRestRight(rs, j, tr, last, i);
    PutInGap(tr, i, c, rs, j);
    CountOneMore(last, rs);
  }

  lemma LineIs(rs: seq<Region>)
    requires Linked(rs) && Full(rs)
    ensures Buffered(rs) && Length(rs) <= REGION * |rs| && LineOf(rs) == Line(Cells(rs)[..Length(rs)], |rs|)
    ensures |LineOf(rs).text| == Length(rs)
  {
  }

  /** append_at_position behind the allocation, for a line `l` of buffers `s` that has been given room. */
  method InsertIntoLine(tr: Region, last: Region, cursorCol: nat, c: char, ghost rs: seq<Region>, ghost j: nat,
                        ghost l: Line, ghost s: string, ghost beyond: char)
    requires Linked(rs) && Full(rs) && j < |rs| && tr == rs[j] && last == rs[|rs| - 1] && last.pos < REGION
    requires ValidLine(l) && |s| == REGION * l.regions && l.text == s[..|l.text|] && j < l.regions
    requires |l.text| == Length(rs) && (|l.text| < |s| ==> beyond == s[|l.text|])
    requires |rs| == if |l.text| == REGION * l.regions then l.regions + 1 else l.regions
    requires Buffered(rs) && Cells(rs)[..|s|] == s
    modifies Buffers(rs), last`pos
    ensures Full(rs) && Buffered(rs) && LineOf(rs) == Append(l, j, cursorCol, c, beyond)
  {
    hide Linked, Full, Cells, ShiftedRight, Length, Append, LineOf, Buffers, Buffered, ValidLine;
    LineIs(rs);
    ghost var t := Cells(rs);
    AppendedLine(l, s, t, j, cursorCol, c, beyond, |rs|);
    InsertWithRoom(tr, last, cursorCol % REGION, c, rs, j);
    LineIs(rs);
  }

  /** The character in the buffers right behind the text, or a new region's. */
  ghost function Beyond(rs: seq<Region>): char
    requires |rs| > 0 && Buffered(rs)
    reads rs`pos, Buffers(rs)
  {
    if Length(rs) < REGION * |rs| then At(rs, Length(rs)) else '\0'
  }

  /** append_at_position for a character that is neither a newline nor a backspace, handed any region of
      the line and any column. */
  method AppendAtPosition(tr: Region, cursorCol: nat, c: char, ghost rs: seq<Region>, ghost j: nat)
    returns (ok: bool, ghost rs': seq<Region>)
    requires Linked(rs) && Full(rs) && j < |rs| && tr == rs[j] && Printable(c)
    modifies rs`pos, rs`next, Buffers(rs)
    ensures ok && Linked(rs') && Full(rs') && rs <= rs'
    ensures forall i :: |rs| <= i < |rs'| ==> fresh(rs'[i]) && fresh(rs'[i].buffer)
    ensures LineOf(rs') == Append(old(LineOf(rs)), j, cursorCol, c, old(Beyond(rs)))
  {
    hide Linked, Full, Cells, Length, Append, LineOf, Buffers, Buffered, ValidLine, Beyond;
    TextOf(rs);
    CellBehind(rs);
    ghost var l, s, beyond := LineOf(rs), Cells(rs), Beyond(rs);
    var last := LastRegion(rs, j, tr);
    last, rs' := EnsureRoom(rs, last);
    assert Buffers(rs') <= Buffers(rs) + {last.buffer} by { MoreBuffers(rs, rs'); }
    InsertIntoLine(tr, last, cursorCol, c, rs', j, l, s, beyond);
    ok := true;
  }

  lemma CellBehind(rs: seq<Region>)
    requires Linked(rs) && Full(rs)
    ensures Buffered(rs) && Length(rs) <= |Cells(rs)|
    ensures Length(rs) < |Cells(rs)| ==> Cells(rs)[Length(rs)] == Beyond(rs)
  {
  }

  lemma TextOf(rs: seq<Region>)
    requires Linked(rs) && Full(rs)
    ensures Buffered(rs) && Length(rs) == |LineOf(rs).text|
    ensures LineOf(rs) == Line(Cells(rs)[..Length(rs)], |rs|)
    ensures rs[|rs| - 1].pos <= REGION && Length(rs) == REGION * (|rs| - 1) + rs[|rs| - 1].pos
  {
  }

  lemma MoreBuffers(rs: seq<Region>, rs': seq<Region>)
    requires |rs'| > 0 && (rs' == rs || rs' == rs + [rs'[|rs'| - 1]])
    ensures Buffers(rs') <= Buffers(rs) + {rs'[|rs'| - 1].buffer}
    ensures rs' == rs ==> Buffers(rs') == Buffers(rs)
  {
  }

  // ---------------------------------------------------------------- removing

  /** The loops of remove_at_position, from `tr` to the last region, which it finds on its way. */
  method ShiftRestLeft(ghost rs: seq<Region>, ghost j: nat, tr: Region, from: nat) returns (last: Region)
    requires Linked(rs) && Full(rs) && j < |rs| && tr == rs[j] && from < REGION
    modifies Buffers(rs)
    ensures Cells(rs) == ShiftedLeft(old(Cells(rs)), REGION * j + from, Length(rs)) && last == rs[|rs| - 1]
  {
    hide Linked, Full, Cells, ShiftedLeft, Length;
    RegionFacts(rs, j);
    ghost var before, p := Cells(rs), REGION * j + from;
    ShiftRegionLeft(rs, j, tr, from);
    last := tr;
    ghost var m := j;
    while last.next != null
      invariant j <= m < |rs| && last == rs[m]
      invariant Cells(rs) == ShiftedLeft(before, p, REGION * m + last.pos)
      decreases |rs| - m
    {
      RegionFacts(rs, m);
      last := last.next;
      m := m + 1;
      RegionFacts(rs, m);
      ShiftRegionLeft(rs, m, last, 0);
      ShiftsLeft(before, p, REGION * m, REGION * m + last.pos);
    }
    RegionFacts(rs, m);
  }

  /** The empty last region is unlinked. */
  method DropLast(last: Region, ghost rs: seq<Region>, ghost rs': seq<Region>)
    requires Linked(rs) && Full(rs) && last == rs[|rs| - 1] && last.pos == 0 && last.prev != null
    requires |rs| > 1 && rs' == rs[..|rs| - 1]
    modifies rs`next
    ensures Linked(rs') && Full(rs') && Length(rs') == old(Length(rs))
  {
    last.prev.next := null;
  }

  /** The end of remove_at_position: an empty last region is dropped, any other is one shorter. */
  method DropOrShorten(last: Region, ghost rs: seq<Region>) returns (ok: bool, ghost rs': seq<Region>)
    requires Linked(rs) && Full(rs) && last == rs[|rs| - 1]
    modifies rs`pos, rs`next
    ensures ok == (old(Length(rs)) > 0) && Linked(rs') && Full(rs') && rs' <= rs && Buffers(rs') <= Buffers(rs)
    ensures if ok && old(last.pos) == 0 then |rs'| == |rs| - 1 && Length(rs') == old(Length(rs))
            else |rs'| == |rs| && Length(rs') == old(Length(rs)) - (if ok then 1 else 0)
    ensures Cells(rs') == Cells(rs)[..REGION * |rs'|]
  {
    RegionFacts(rs, |rs| - 1);
    rs' := rs;
    if last.pos == 0 {
      if last.prev != null {
        rs' := rs[..|rs| - 1];
        assert rs == rs' + [last];
        CellsOfLonger(rs', last);
        hide Linked, Full, Cells;
        DropLast(last, rs, rs');
        return true, rs';
      }
      return false, rs;
    }
    last.pos := last.pos - 1;
    return true, rs;
  }

  /** remove_at_position inside a line, handed any region of it and any column but 0. */
  method RemoveAtPosition(tr: Region, cursorCol: nat, ghost rs: seq<Region>, ghost j: nat)
    returns (ok: bool, ghost rs': seq<Region>)
    requires Linked(rs) && Full(rs) && j < |rs| && tr == rs[j] && cursorCol > 0
    modifies rs`pos, rs`next, Buffers(rs)
    ensures ok == (old(LineOf(rs)).text != []) && Linked(rs') && Full(rs') && rs' <= rs && Buffers(rs') <= Buffers(rs)
    ensures LineOf(rs') == Remove(old(LineOf(rs)), j, cursorCol, old(Beyond(rs)))
  {
    hide Linked, Full, Cells, ShiftedLeft, Length, LineOf, Buffers, Beyond, Buffered, Removed;
    TextOf(rs);
    CellBehind(rs);
    ghost var l, before, beyond, n := LineOf(rs), Cells(rs), Beyond(rs), Length(rs);
    if n > 0 {
      RemovedLine(l, before, j, cursorCol, beyond);
    } else {
      NoShift(before, Place(j, cursorCol - 1));
    }
    var last := ShiftRestLeft(rs, j, tr, (cursorCol - 1) % REGION);
    ok, rs' := DropOrShorten(last, rs);
    LineIs(rs');
  }

  /** Typing a character at a column, in the region that holds it, and erasing it again, in that region. */
  method TypeThenErase(tr: Region, cursorCol: nat, c: char, ghost rs: seq<Region>, ghost j: nat)
    returns (ghost rs': seq<Region>)
    requires Linked(rs) && Full(rs) && j < |rs| && tr == rs[j] && Printable(c)
    requires cursorCol / REGION == j && cursorCol % REGION <= tr.pos
    modifies rs`pos, rs`next, Buffers(rs)
    ensures Linked(rs') && Full(rs') && LineOf(rs').text == old(LineOf(rs)).text
  {
    hide Linked, Full, Cells, Length, LineOf, Remove, Append, Beyond;
    RegionFacts(rs, j);
    TextOf(rs);
    ghost var l, beyond := LineOf(rs), Beyond(rs);
    var ok, more := AppendAtPosition(tr, cursorCol, c, rs, j);
    RegionFacts(more, j);
    ghost var beyond' := Beyond(more);
    ok, rs' := RemoveAtPosition(tr, cursorCol + 1, more, j);
    RemoveUndoesAppend(l, cursorCol, c, beyond, beyond');
  }
}
