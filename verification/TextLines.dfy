/** A line of the editor as a flat sequence of characters, and how the chunked form edits it. */
module TextLines {

  const REGION: nat := 128          // TEXT_REGION_BUFFER_SIZE

  const BACKSPACE: char := '\U{8}'

  /** Neither of the keys that have branches of their own. */
  predicate Printable(c: char) { c != '\n' && c != BACKSPACE }

  function Inserted(s: string, p: nat, c: char): (r: string)
    requires p <= |s|
    ensures |r| == |s| + 1
    ensures forall k :: 0 <= k < |r| ==> r[k] == if k < p then s[k] else if k == p then c else s[k - 1]
  {
    s[..p] + [c] + s[p..]
  }

  function Removed(s: string, p: nat): (r: string)
    requires p < |s|
    ensures |r| == |s| - 1
    ensures forall k :: 0 <= k < |r| ==> r[k] == if k < p then s[k] else s[k + 1]
  {
    s[..p] + s[p + 1..]
  }

  lemma RemovedUndoesInserted(s: string, p: nat, c: char)
    requires p <= |s|
    ensures Removed(Inserted(s, p, c), p) == s
  {
  }

  // ---------------------------------------------------------------- lines in chunks

  /** A line's text and its number of regions: all but the last are full, and the last may be empty. */
  datatype Line = Line(text: string, regions: nat)

  /** `n` characters in so many regions. */
  predicate Shape(n: nat, regions: nat) {
    regions >= 1 && REGION * (regions - 1) <= n <= REGION * regions
  }

  predicate ValidLine(l: Line) {
    Shape(|l.text|, l.regions)
  }

  /** The last region holds nothing. */
  predicate EmptyTail(l: Line)
    requires l.regions >= 1
  {
    |l.text| == REGION * (l.regions - 1)
  }

  /** The place in the text that region `j` and cursor column `col` stand for: the source takes the
      column modulo the region size, in whatever region it is handed. */
  function Place(j: nat, col: nat): nat { REGION * j + col % REGION }

  /** The character branch of append_at_position, handed region `j`; `beyond` is the character in the
      buffers right behind the text. Handed a column behind the end of its last region, the character goes
      to a place outside the text, which grows by whatever stands behind it. */
  function Append(l: Line, j: nat, col: nat, c: char, beyond: char): (r: Line)
    requires ValidLine(l) && j < l.regions
    ensures ValidLine(r) && !EmptyTail(r)
  {
    var p, regions := Place(j, col), if |l.text| == REGION * l.regions then l.regions + 1 else l.regions;
    Line(if p <= |l.text| then Inserted(l.text, p, c) else l.text + [beyond], regions)
  }

  /** The mid-line branch of remove_at_position, handed region `j`. Behind the end of its last region
      nothing moves. Then the last region is one shorter; if it is empty it is dropped, and what was shifted
      in from it stays in the text. With nothing to remove the call fails. */
  function Remove(l: Line, j: nat, col: nat, beyond: char): (r: Line)
    requires ValidLine(l) && j < l.regions && col > 0
    ensures ValidLine(r)
  {
    var p, n := Place(j, col - 1), |l.text|;
    if n == 0 && l.regions == 1 then l
    else if EmptyTail(l) then Line(if p < n then Removed(l.text, p) + [beyond] else l.text, l.regions - 1)
    else Line(Removed(l.text, if p < n then p else n - 1), l.regions)
  }

  /** Whatever a line of this shape holds, the call inserts at the column. */
  ghost predicate AppendsAtColumn(n: nat, regions: nat, j: nat, col: nat)
    requires Shape(n, regions) && j < regions && col <= n
  {
    forall text: string, c, beyond | |text| == n ::
      Append(Line(text, regions), j, col, c, beyond).text == Inserted(text, col, c)
  }

  /** Appending hits the cursor's place exactly when it is handed the region that holds the column. */
  lemma AppendsAtColumnIff(n: nat, regions: nat, j: nat, col: nat)
    requires Shape(n, regions) && j < regions && col <= n
    ensures AppendsAtColumn(n, regions, j, col) <==> j == col / REGION
  {
    if j != col / REGION {
      var text := seq(n, _ => 'a');
      var l := Append(Line(text, regions), j, col, 'b', 'a');
      assert Place(j, col) != col;
      assert l.text[col] != Inserted(text, col, 'b')[col];
    }
  }

  /** Whatever a line of this shape holds, the call removes the character before the column and no more. */
  ghost predicate RemovesBeforeColumn(n: nat, regions: nat, j: nat, col: nat)
    requires Shape(n, regions) && j < regions && 0 < col <= n
  {
    forall text: string, beyond | |text| == n ::
      Remove(Line(text, regions), j, col, beyond).text == Removed(text, col - 1)
  }

  /** It does exactly when it is handed the region that holds that character, and the last region is not
      empty. */
  lemma RemovesIff(n: nat, regions: nat, j: nat, col: nat)
    requires Shape(n, regions) && j < regions && 0 < col <= n
    ensures RemovesBeforeColumn(n, regions, j, col) <==> j == (col - 1) / REGION && n != REGION * (regions - 1)
  {
    if j != (col - 1) / REGION || n == REGION * (regions - 1) {
      var text := seq(n, k => if k == col - 1 then 'b' else 'a');
      var l := Remove(Line(text, regions), j, col, 'b');
      if n != REGION * (regions - 1) {
        OtherPlace(n, regions, j, col);
        var p := if Place(j, col - 1) < n then Place(j, col - 1) else n - 1;
        var at := if p < col - 1 then col - 2 else col - 1;
        assert l.text[at] == 'b' && Removed(text, col - 1)[at] == 'a';
      }
    }
  }

  /** In the wrong region another character goes. */
  lemma OtherPlace(n: nat, regions: nat, j: nat, col: nat)
    requires Shape(n, regions) && j < regions && 0 < col <= n
    requires j != (col - 1) / REGION && n != REGION * (regions - 1)
    ensures Place(j, col - 1) != col - 1 && (Place(j, col - 1) >= n ==> col < n)
  {
  }

  /** At a column that is a multiple of 128, handed the region that begins there, the character that goes
      is the one 127 places behind the cursor, or the last one of the line. */
  lemma RemovesAtRegionStart(l: Line, j: nat, beyond: char)
    requires ValidLine(l) && 0 < j < l.regions && !EmptyTail(l)
    ensures Remove(l, j, 128 * j, beyond).text
         == Removed(l.text, if 128 * j + 127 < |l.text| then 128 * j + 127 else |l.text| - 1)
  {
  }

  /** Removing behind a character that has just been put in restores the text. */
  lemma RemoveUndoesAppend(l: Line, col: nat, c: char, beyond: char, beyond': char)
    requires ValidLine(l) && col <= |l.text| && col / REGION < l.regions
    ensures var a := Append(l, col / REGION, col, c, beyond);
      Remove(a, col / REGION, col + 1, beyond').text == l.text
  {
    RemovedUndoesInserted(l.text, col, c);
  }

  /** Two removals from a line that reaches just one character into its last region: the second one
      leaves the text as long as it was. */
  lemma SecondRemoveKeepsLength(l: Line, i: nat, a: nat, j: nat, b: nat, beyond: char, beyond': char)
    requires ValidLine(l) && l.regions > 1 && |l.text| == REGION * (l.regions - 1) + 1
    requires a > 0 && b > 0 && i < l.regions && j < l.regions
    ensures var once := Remove(l, i, a, beyond);
      |once.text| == |l.text| - 1 && |Remove(once, j, b, beyond').text| == |once.text|
  {
  }

  // ---------------------------------------------------------------- shifting

  /** The characters at places p to q - 1 move one to the right; place `p` is left as it was. */
  function ShiftedRight(s: string, p: nat, q: nat): (r: string)
    ensures |r| == |s|
    ensures forall k :: 0 <= k < |s| ==> r[k] == if p < k <= q then s[k - 1] else s[k]
  {
    seq(|s|, k requires 0 <= k < |s| => if p < k <= q then s[k - 1] else s[k])
  }

  /** Places p to q - 1 take the character one further on, if there is one. */
  function ShiftedLeft(s: string, p: nat, q: nat): (r: string)
    ensures |r| == |s|
    ensures forall k :: 0 <= k < |s| ==> r[k] == if p <= k < q && k + 1 < |s| then s[k + 1] else s[k]
  {
    seq(|s|, k requires 0 <= k < |s| => if p <= k < q && k + 1 < |s| then s[k + 1] else s[k])
  }

  /** Shifts of adjacent stretches, the later one first, are one shift. */
  lemma ShiftsRight(s: string, p: nat, m: nat, q: nat)
    requires p <= m <= q
    ensures ShiftedRight(ShiftedRight(s, m, q), p, m) == ShiftedRight(s, p, q)
  {
  }

  lemma NoShift(s: string, p: nat)
    ensures ShiftedRight(s, p, p) == s && ShiftedLeft(s, p, p) == s
  {
  }

  /** To the left the earlier one comes first. */
  lemma ShiftsLeft(s: string, p: nat, m: nat, q: nat)
    requires p <= m <= q
    ensures ShiftedLeft(ShiftedLeft(s, p, m), m, q) == ShiftedLeft(s, p, q)
  {
  }

  /** Shifting the rest of the text and putting a character in the gap inserts it. */
  lemma ShiftRightInserts(s: string, p: nat, n: nat, c: char)
    requires p <= n < |s|
    ensures ShiftedRight(s, p, n)[p := c][..n + 1] == Inserted(s[..n], p, c)
  {
  }

  /** The line whose buffers are `s`, seen in buffers `t` with room for one more character. */
  lemma AppendedLine(l: Line, s: string, t: string, j: nat, col: nat, c: char, beyond: char, regions: nat)
    requires ValidLine(l) && |s| == REGION * l.regions && l.text == s[..|l.text|] && j < l.regions
    requires regions == if |l.text| == REGION * l.regions then l.regions + 1 else l.regions
    requires |t| == REGION * regions && t[..|s|] == s && (|l.text| < |s| ==> beyond == s[|l.text|])
    ensures var p, n := Place(j, col), |l.text|;
      n < |t| && p < |t| && Line(ShiftedRight(t, p, n)[p := c][..n + 1], regions) == Append(l, j, col, c, beyond)
  {
    assert t[..|l.text|] == l.text && (|l.text| < |s| ==> t[|l.text|] == s[|l.text|]);
    if Place(j, col) <= |l.text| {
      ShiftRightInserts(t, Place(j, col), |l.text|, c);
    }
  }

  lemma ShiftLeftRemoves(s: string, p: nat, n: nat)
    requires p < n <= |s|
    ensures ShiftedLeft(s, p, n)[..n - 1] == Removed(s[..n], p)
    ensures n < |s| ==> ShiftedLeft(s, p, n)[..n] == Removed(s[..n], p) + [s[n]]
  {
  }

  /** The line whose buffers are `s`, when the rest behind place `p` has moved one to the left. */
  lemma RemovedLine(l: Line, s: string, j: nat, col: nat, beyond: char)
    requires ValidLine(l) && |s| == REGION * l.regions && l.text == s[..|l.text|] && j < l.regions
    requires col > 0 && l.text != [] && (|l.text| < |s| ==> beyond == s[|l.text|])
    ensures var (p, n) := (Place(j, col - 1), |l.text|);
      var t := ShiftedLeft(s, p, n);
      Remove(l, j, col, beyond)
        == if EmptyTail(l) then Line(t[..REGION * (l.regions - 1)][..n], l.regions - 1) else Line(t[..n - 1], l.regions)
  {
    var p, n := Place(j, col - 1), |l.text|;
    if p < n {
      ShiftLeftRemoves(s, p, n);
    } else {
      assert ShiftedLeft(s, p, n) == s;
      assert s[..n - 1] == Removed(s[..n], n - 1);
    }
  }
}
