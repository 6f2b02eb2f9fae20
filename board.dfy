/**
 * The board table as values: a header row of category titles and a body of
 * `NumQuestionsPerCat` rows of `NumCategories` cells. A cell is its id and
 * the text it displays.
 */
module Board {
  import opened Wrappers
  import opened CellIds

  const NumCategories: nat := 6
  const NumQuestionsPerCat: nat := 5

  datatype Cell = Cell(id: string, text: string)

  /** Body row `clueIndex` holds, in column `catIndex`, the cell of that clue of that category. */
  predicate Laid(body: seq<seq<Cell>>) {
    && |body| == NumQuestionsPerCat
    && (forall r :: 0 <= r < |body| ==> |body[r]| == NumCategories)
    && (forall r, c :: 0 <= r < |body| && 0 <= c < |body[r]| ==> body[r][c].id == CellId(c, r))
  }

  /** `$("#" + id).html(text)`: the cell carrying `id`, if any, now displays `text`. */
  function UpdateCell(body: seq<seq<Cell>>, id: string, text: string): seq<seq<Cell>> {
    seq(|body|, r requires 0 <= r < |body| =>
      seq(|body[r]|, c requires 0 <= c < |body[r]| =>
        if body[r][c].id == id then Cell(id, text) else body[r][c]))
  }

  /** Every body cell has its own id, and each id leads back to its cell's position. */
  lemma LaidIdsDistinct(body: seq<seq<Cell>>)
    requires Laid(body)
    ensures forall r1, c1, r2, c2 ::
      (0 <= r1 < |body| && 0 <= c1 < |body[r1]| && 0 <= r2 < |body| && 0 <= c2 < |body[r2]| &&
       body[r1][c1].id == body[r2][c2].id) ==> r1 == r2 && c1 == c2
    ensures forall r, c :: 0 <= r < |body| && 0 <= c < |body[r]| ==> Decode(body[r][c].id) == Some((c, r))
  {
    forall r1, c1, r2, c2 |
      0 <= r1 < |body| && 0 <= c1 < |body[r1]| && 0 <= r2 < |body| && 0 <= c2 < |body[r2]|
      ensures body[r1][c1].id == body[r2][c2].id ==> r1 == r2 && c1 == c2
    {
      CellIdInjective(c1, r1, c2, r2);
    }
    forall r, c | 0 <= r < |body| && 0 <= c < |body[r]|
      ensures Decode(body[r][c].id) == Some((c, r))
    {
      DecodeCellId(c, r);
    }
  }

  /**
   * On a laid-out body, writing to the id of cell (`catIndex`, `clueIndex`)
   * changes that cell's text and nothing else; an id of a clue outside the
   * board matches no cell and changes nothing.
   */
  lemma UpdateCellAt(body: seq<seq<Cell>>, catIndex: nat, clueIndex: nat, text: string)
    requires Laid(body)
    ensures Laid(UpdateCell(body, CellId(catIndex, clueIndex), text))
    ensures forall r, c :: 0 <= r < |body| && 0 <= c < |body[r]| ==>
      UpdateCell(body, CellId(catIndex, clueIndex), text)[r][c].text ==
        if r == clueIndex && c == catIndex then text else body[r][c].text
  {
    var id := CellId(catIndex, clueIndex);
    var after: seq<seq<Cell>> := UpdateCell(body, id, text);
    forall r, c | 0 <= r < |body| && 0 <= c < |body[r]|
      ensures after[r][c].id == body[r][c].id
      ensures after[r][c].text == if r == clueIndex && c == catIndex then text else body[r][c].text
    {
      CellIdInjective(c, r, catIndex, clueIndex);
    }
  }
}
