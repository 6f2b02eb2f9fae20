/**
 * The game: the `categories` list the page keeps, the table it displays,
 * and the three operations that change them: `fillTable`, `handleClick`
 * and `setupAndStart`.
 */
module Jeopardy {
  import opened Wrappers
  import opened CellIds
  import opened Clues
  import opened Board

  /** Identifier of a category at the trivia service. */
  type CategoryId = int

  /** `picked` is a sample, without replacement, of the clues of `raw`. */
  predicate DrawnFrom(picked: seq<RawClue>, raw: RawCategory) {
    multiset(picked) <= multiset(raw.clues)
  }

  /** `categories` with one clue replaced. */
  function SetClue(cats: seq<Category>, catIndex: nat, clueIndex: nat, c: Clue): (r: seq<Category>)
    requires catIndex < |cats| && clueIndex < |cats[catIndex].clues|
    ensures |r| == |cats|
    ensures forall i :: 0 <= i < |cats| ==> r[i].title == cats[i].title && |r[i].clues| == |cats[i].clues|
    ensures forall i, j :: 0 <= i < |cats| && 0 <= j < |cats[i].clues| ==>
      r[i].clues[j] == if i == catIndex && j == clueIndex then c else cats[i].clues[j]
  {
    cats[catIndex := cats[catIndex].(clues := cats[catIndex].clues[clueIndex := c])]
  }

  /**
   * Index of the first id the service has no category for (so its request
   * is rejected), or `|ids|` when it has them all.
   */
  function FirstMissing(provider: map<CategoryId, RawCategory>, ids: seq<CategoryId>): (k: nat)
    ensures k <= |ids|
    ensures forall j :: 0 <= j < k ==> ids[j] in provider
    ensures k < |ids| ==> ids[k] !in provider
  {
    if |ids| == 0 || ids[0] !in provider then 0 else 1 + FirstMissing(provider, ids[1..])
  }

  /** The `categories` list after one `getCategory` per id has been pushed, in id order. */
  function Assemble(provider: map<CategoryId, RawCategory>, ids: seq<CategoryId>, picks: seq<seq<RawClue>>): (cats: seq<Category>)
    requires |picks| == |ids|
    requires forall i :: 0 <= i < |ids| ==> ids[i] in provider
    ensures |cats| == |ids|
  {
    if |ids| == 0 then []
    else
      var n := |ids| - 1;
      Assemble(provider, ids[..n], picks[..n]) + [GetCategory(provider[ids[n]], picks[n])]
  }

  /** One category per id, in id order, each made by `getCategory` from that id's response. */
  lemma {:induction false} AssembleSpec(provider: map<CategoryId, RawCategory>, ids: seq<CategoryId>, picks: seq<seq<RawClue>>)
    requires |picks| == |ids|
    requires forall i :: 0 <= i < |ids| ==> ids[i] in provider
    ensures |Assemble(provider, ids, picks)| == |ids|
    ensures forall i :: 0 <= i < |ids| ==> Assemble(provider, ids, picks)[i] == GetCategory(provider[ids[i]], picks[i])
    decreases |ids|
  {
    if |ids| > 0 {
      var n := |ids| - 1;
      AssembleSpec(provider, ids[..n], picks[..n]);
    }
  }

  /**
   * A rebuilt `categories` list has one category per id with that id's
   * title and clues, and every clue is hidden: reveal progress from before
   * a restart is gone.
   */
  lemma RestartDiscardsProgress(provider: map<CategoryId, RawCategory>, ids: seq<CategoryId>, picks: seq<seq<RawClue>>)
    requires |picks| == |ids|
    requires forall i :: 0 <= i < |ids| ==> ids[i] in provider
    ensures |Assemble(provider, ids, picks)| == |ids|
    ensures forall i :: 0 <= i < |ids| ==>
      && Assemble(provider, ids, picks)[i].title == provider[ids[i]].title
      && Strip(Assemble(provider, ids, picks)[i].clues) == picks[i]
    ensures forall i, j :: 0 <= i < |ids| && 0 <= j < |Assemble(provider, ids, picks)[i].clues| ==>
      Assemble(provider, ids, picks)[i].clues[j].showing == Hidden
  {
    AssembleSpec(provider, ids, picks);
    forall i | 0 <= i < |ids|
      ensures Strip(Assemble(provider, ids, picks)[i].clues) == picks[i]
    {
      GetCategoryKeepsClues(provider[ids[i]], picks[i]);
    }
  }

  /**
   * The table agrees with `cats`: one header cell per category with its
   * title, and every clue cell shows its clue's face.
   */
  ghost predicate Agrees(cats: seq<Category>, header: seq<string>, body: seq<seq<Cell>>) {
    && |cats| >= NumCategories
    && (forall c :: 0 <= c < NumCategories ==> |cats[c].clues| >= NumQuestionsPerCat)
    && |header| == NumCategories
    && (forall c :: 0 <= c < NumCategories ==> header[c] == cats[c].title)
    && Laid(body)
    && (forall r, c :: 0 <= r < NumQuestionsPerCat && 0 <= c < NumCategories ==>
          body[r][c].text == Face(cats[c].clues[r]))
  }

  /** A freshly drawn table agrees with categories whose clues are all hidden. */
  lemma FreshTableAgrees(cats: seq<Category>, header: seq<string>, body: seq<seq<Cell>>)
    requires |cats| >= NumCategories
    requires forall c :: 0 <= c < NumCategories ==> |cats[c].clues| >= NumQuestionsPerCat
    requires forall c, r :: 0 <= c < NumCategories && 0 <= r < |cats[c].clues| ==> cats[c].clues[r].showing == Hidden
    requires |header| == NumCategories
    requires forall c :: 0 <= c < NumCategories ==> header[c] == cats[c].title
    requires Laid(body)
    requires forall r, c :: 0 <= r < |body| && 0 <= c < |body[r]| ==> body[r][c].text == "?"
    ensures Agrees(cats, header, body)
  {
  }

  /** A click keeps the table in agreement with the categories. */
  lemma ClickKeepsAgreement(cats: seq<Category>, header: seq<string>, body: seq<seq<Cell>>, catIndex: nat, clueIndex: nat)
    requires Agrees(cats, header, body)
    requires catIndex < |cats| && clueIndex < |cats[catIndex].clues|
    ensures var (after, msg) := Reveal(cats[catIndex].clues[clueIndex]);
      Agrees(SetClue(cats, catIndex, clueIndex, after), header,
             if msg.Some? then UpdateCell(body, CellId(catIndex, clueIndex), msg.value) else body)
  {
    var (after, msg) := Reveal(cats[catIndex].clues[clueIndex]);
    if msg.Some? {
      UpdateCellAt(body, catIndex, clueIndex, msg.value);
    }
  }

  /**
   * After a successful rebuild and a fresh table, the table agrees with the
   * categories when each of the first six has at least five clues.
   */
  lemma RebuiltTableAgrees(provider: map<CategoryId, RawCategory>, ids: seq<CategoryId>, picks: seq<seq<RawClue>>,
                           header: seq<string>, body: seq<seq<Cell>>)
    requires |picks| == |ids| && |ids| >= NumCategories
    requires forall i :: 0 <= i < |ids| ==> ids[i] in provider
    requires |header| == NumCategories
    requires forall c :: 0 <= c < NumCategories ==> header[c] == Assemble(provider, ids, picks)[c].title
    requires Laid(body)
    requires forall r, c :: 0 <= r < |body| && 0 <= c < |body[r]| ==> body[r][c].text == "?"
    ensures (forall i :: 0 <= i < NumCategories ==> |picks[i]| >= NumQuestionsPerCat) ==>
      Agrees(Assemble(provider, ids, picks), header, body)
  {
    RestartDiscardsProgress(provider, ids, picks);
    if forall i :: 0 <= i < NumCategories ==> |picks[i]| >= NumQuestionsPerCat {
      FreshTableAgrees(Assemble(provider, ids, picks), header, body);
    }
  }

  class Game {
    /** The main data structure: one category per column of the board. */
    var categories: seq<Category>
    /** The texts of the header cells. */
    var header: seq<string>
    /** The body rows of the table. */
    var body: seq<seq<Cell>>

    /** The board is drawn and agrees with `categories`. */
    ghost predicate Ready()
      reads this
    {
      Agrees(categories, header, body)
    }

    /** Page load: no categories and an empty table. */
    constructor ()
      ensures categories == [] && header == [] && body == []
    {
      categories := [];
      header := [];
      body := [];
    }

    /**
     * `fillTable`: a header cell per category holding its title, and
     * `NumQuestionsPerCat` rows of `NumCategories` cells, each with its
     * cell id and the text "?".
     */
    method FillTable()
      requires |categories| >= NumCategories
      modifies this`header, this`body
      ensures |header| == NumCategories
      ensures forall c :: 0 <= c < NumCategories ==> header[c] == categories[c].title
      ensures Laid(body)
      ensures forall r, c :: 0 <= r < |body| && 0 <= c < |body[r]| ==> body[r][c].text == "?"
    {
      var titles: seq<string> := [];
      for catIndex := 0 to NumCategories
        invariant |titles| == catIndex
        invariant forall c :: 0 <= c < catIndex ==> titles[c] == categories[c].title
      {
        titles := titles + [categories[catIndex].title];
      }
      header := titles;

      var rows: seq<seq<Cell>> := [];
      for clueIndex := 0 to NumQuestionsPerCat
        invariant |rows| == clueIndex
        invariant forall r :: 0 <= r < clueIndex ==> |rows[r]| == NumCategories
        invariant forall r, c :: 0 <= r < clueIndex && 0 <= c < |rows[r]| ==> rows[r][c] == Cell(CellId(c, r), "?")
      {
        var tr: seq<Cell> := [];
        for catIndex := 0 to NumCategories
          invariant |tr| == catIndex
          invariant forall c :: 0 <= c < catIndex ==> tr[c] == Cell(CellId(c, clueIndex), "?")
        {
          tr := tr + [Cell(CellId(catIndex, clueIndex), "?")];
        }
        rows := rows + [tr];
      }
      body := rows;
    }

    /**
     * `handleClick` on the cell of clue `clueIndex` of category `catIndex`:
     * advance that clue's reveal state and write the new text into its cell;
     * once the answer shows, the click is ignored.
     */
    method Click(catIndex: nat, clueIndex: nat) returns (msg: Option<string>)
      requires catIndex < |categories| && clueIndex < |categories[catIndex].clues|
      modifies this`categories, this`body
      ensures msg == Reveal(old(categories[catIndex].clues[clueIndex])).1
      ensures categories == SetClue(old(categories), catIndex, clueIndex, Reveal(old(categories[catIndex].clues[clueIndex])).0)
      ensures body == if msg.Some? then UpdateCell(old(body), CellId(catIndex, clueIndex), msg.value) else old(body)
      ensures old(Ready()) ==> Ready()
    {
      var clue := categories[catIndex].clues[clueIndex];
      var text: string;
      if clue.showing == Hidden {
        text := clue.question;
        clue := clue.(showing := Question);
      } else if clue.showing == Question {
        text := clue.answer;
        clue := clue.(showing := Answer);
      } else {
        assert categories[catIndex].clues[clueIndex := clue] == categories[catIndex].clues;
        assert categories[catIndex := categories[catIndex]] == categories;
        assert SetClue(categories, catIndex, clueIndex, clue) == categories;
        return None;
      }
      if Ready() {
        ClickKeepsAgreement(categories, header, body, catIndex, clueIndex);
      }
      categories := SetClue(categories, catIndex, clueIndex, clue);
      body := UpdateCell(body, CellId(catIndex, clueIndex), text);
      msg := Some(text);
    }

    /** The clicked id decodes to the indices of an existing clue. */
    predicate Addresses(id: string)
      reads this
    {
      && Decode(id).Some?
      && Decode(id).value.0 < |categories|
      && Decode(id).value.1 < |categories[Decode(id).value.0].clues|
    }

    /**
     * `handleClick` given the id of the clicked element: the id is split
     * into the two indices, and the clue they address is clicked. When the
     * id does not address a clue (an element without an id inside a cell,
     * whose id is "", or indices past the lists), the lookups yield
     * `undefined` and reading `.clues` or `.showing` of it throws a
     * `TypeError` before anything changes; `thrown` reports that.
     */
    method HandleClick(id: string) returns (msg: Option<string>, thrown: bool)
      modifies this`categories, this`body
      ensures thrown <==> !old(Addresses(id))
      ensures thrown ==> msg == None && categories == old(categories) && body == old(body)
      ensures !thrown ==> var (c, r) := Decode(id).value;
        && msg == Reveal(old(categories[c].clues[r])).1
        && categories == SetClue(old(categories), c, r, Reveal(old(categories[c].clues[r])).0)
        && body == if msg.Some? then UpdateCell(old(body), CellId(c, r), msg.value) else old(body)
      ensures old(Ready()) ==> Ready()
    {
      if !Addresses(id) {
        return None, true;
      }
      var (catIndex, clueIndex) := Decode(id).value;
      msg := Click(catIndex, clueIndex);
      thrown := false;
    }

    /**
     * `setupAndStart` with the sampled category ids `catIds`, the service's
     * responses `provider`, and `picks[i]`, the clues `_.sampleSize` drew
     * from the response for `catIds[i]`. `categories` is emptied and refilled in id
     * order; a request the service rejects ends the run there, leaving the
     * categories pushed so far and the old table. Otherwise the table is
     * redrawn.
     */
    method SetupAndStart(catIds: seq<CategoryId>, provider: map<CategoryId, RawCategory>, picks: seq<seq<RawClue>>)
      returns (ok: bool)
      requires |picks| == |catIds|
      requires |catIds| >= NumCategories
      // each pick is a sample, without replacement, of the clues in that id's response
      requires forall i :: 0 <= i < |catIds| && catIds[i] in provider ==> DrawnFrom(picks[i], provider[catIds[i]])
      modifies this`categories, this`header, this`body
      ensures ok <==> FirstMissing(provider, catIds) == |catIds|
      ensures var k := FirstMissing(provider, catIds);
        categories == Assemble(provider, catIds[..k], picks[..k])
      ensures !ok ==> header == old(header) && body == old(body)
      ensures ok ==> |categories| == |catIds| && |header| == NumCategories && (forall c :: 0 <= c < NumCategories ==> header[c] == categories[c].title)
      ensures ok ==> Laid(body) && forall r, c :: 0 <= r < |body| && 0 <= c < |body[r]| ==> body[r][c].text == "?"
      ensures ok && (forall i :: 0 <= i < NumCategories ==> |picks[i]| >= NumQuestionsPerCat) ==> Ready()
    {
      categories := [];
      var i := 0;
      while i < |catIds|
        invariant 0 <= i <= |catIds|
        invariant forall j :: 0 <= j < i ==> catIds[j] in provider
        invariant categories == Assemble(provider, catIds[..i], picks[..i])
        invariant header == old(header) && body == old(body)
      {
        if catIds[i] !in provider {
          assert FirstMissing(provider, catIds) == i;
          return false;
        }
        AssembleStep(provider, catIds, picks, i);
        categories := categories + [GetCategory(provider[catIds[i]], picks[i])];
        i := i + 1;
      }
      assert catIds[..i] == catIds && picks[..i] == picks;
      AssembleSpec(provider, catIds, picks);
      FillTable();
      RebuiltTableAgrees(provider, catIds, picks, header, body);
      ok := true;
    }
  }

  /** One more pass of the push loop appends the next id's category. */
  lemma AssembleStep(provider: map<CategoryId, RawCategory>, ids: seq<CategoryId>, picks: seq<seq<RawClue>>, i: nat)
    requires |picks| == |ids| && i < |ids|
    requires forall j :: 0 <= j <= i ==> ids[j] in provider
    ensures Assemble(provider, ids[..i + 1], picks[..i + 1]) ==
      Assemble(provider, ids[..i], picks[..i]) + [GetCategory(provider[ids[i]], picks[i])]
  {
    assert ids[..i + 1][..i] == ids[..i];
    assert picks[..i + 1][..i] == picks[..i];
  }
}
