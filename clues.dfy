/**
 * Clues and categories as values, the per-clue reveal state machine of
 * `handleClick`, and the mapping `getCategory` applies to the clues it
 * receives from the trivia service.
 */
module Clues {
  import opened Wrappers

  /**
   * The `showing` field of a clue. It starts as `null`, and `handleClick`
   * tests `!clue.showing`, so every falsy value is `Hidden`.
   */
  datatype Showing = Hidden | Question | Answer

  datatype Clue = Clue(question: string, answer: string, showing: Showing)

  datatype Category = Category(title: string, clues: seq<Clue>)

  /** A clue as the trivia service sends it (only the fields the game reads). */
  datatype RawClue = RawClue(question: string, answer: string)

  /** A category as the trivia service sends it: its title and all its clues, from which a few are sampled. */
  datatype RawCategory = RawCategory(title: string, clues: seq<RawClue>)

  /** How far a clue has been revealed. */
  function Progress(s: Showing): nat {
    match s
    case Hidden => 0
    case Question => 1
    case Answer => 2
  }

  /** What a clue's cell displays: the "?" placeholder, its question or its answer. */
  function Face(c: Clue): string {
    match c.showing
    case Hidden => "?"
    case Question => c.question
    case Answer => c.answer
  }

  /**
   * One click on a clue: the clue afterwards, and the text written into its
   * cell, or `None` when the click is ignored.
   */
  function Reveal(c: Clue): (res: (Clue, Option<string>))
    // only the reveal state changes
    ensures res.0 == c.(showing := res.0.showing)
    // a click is ignored exactly when the answer is already showing
    ensures res.1.None? <==> c.showing == Answer
    ensures res.1.None? ==> res.0 == c
    // a click that is not ignored moves one step forward and writes the new face
    ensures res.1.Some? ==> Progress(res.0.showing) == Progress(c.showing) + 1
    ensures res.1.Some? ==> res.1.value == Face(res.0)
  {
    match c.showing
    case Hidden => (c.(showing := Question), Some(c.question))
    case Question => (c.(showing := Answer), Some(c.answer))
    case Answer => (c, None)
  }

  /** The clue after `n` clicks. */
  function Clicks(c: Clue, n: nat): Clue
    decreases n
  {
    if n == 0 then c else Clicks(Reveal(c).0, n - 1)
  }

  /** The texts written into the clue's cell by `n` clicks, in order. */
  function Writes(c: Clue, n: nat): seq<string>
    decreases n
  {
    if n == 0 then []
    else
      var (next, msg) := Reveal(c);
      (if msg.Some? then [msg.value] else []) + Writes(next, n - 1)
  }

  /** Once the answer shows, every further click is a no-op. */
  lemma {:induction false} AnswerIsFinal(c: Clue, n: nat)
    requires c.showing == Answer
    ensures Clicks(c, n) == c
    ensures Writes(c, n) == []
    decreases n
  {
    if n > 0 {
      AnswerIsFinal(c, n - 1);
    }
  }

  /** Clicks never move a clue backwards and never alter its question or answer. */
  lemma {:induction false} ClicksMonotone(c: Clue, n: nat)
    ensures Progress(Clicks(c, n).showing) >= Progress(c.showing)
    ensures Clicks(c, n) == c.(showing := Clicks(c, n).showing)
    decreases n
  {
    if n > 0 {
      ClicksMonotone(Reveal(c).0, n - 1);
    }
  }

  /**
   * From a hidden clue, any number of clicks writes at most the question
   * and then the answer, and from the second click on the answer shows.
   */
  lemma {:induction false} HiddenClueClicks(c: Clue, n: nat)
    requires c.showing == Hidden
    ensures Writes(c, n) == [c.question, c.answer][..if n < 2 then n else 2]
    ensures n >= 2 ==> Clicks(c, n) == c.(showing := Answer)
  {
    if n >= 2 {
      var a := Reveal(Reveal(c).0).0;
      assert a == c.(showing := Answer);
      AnswerIsFinal(a, n - 2);
      assert Writes(c, n) == [c.question] + Writes(Reveal(c).0, n - 1);
      assert Writes(Reveal(c).0, n - 1) == [c.answer] + Writes(a, n - 2);
    }
  }

  /** `{question, answer, showing: null}` for one raw clue. */
  function FreshClue(raw: RawClue): (c: Clue)
    ensures c.showing == Hidden
  {
    Clue(raw.question, raw.answer, Hidden)
  }

  /** The `.map` of `getCategory` over the sampled clues. */
  function FreshClues(raws: seq<RawClue>): (cs: seq<Clue>)
    ensures |cs| == |raws|
    ensures forall i :: 0 <= i < |raws| ==>
      cs[i].question == raws[i].question && cs[i].answer == raws[i].answer && cs[i].showing == Hidden
  {
    if |raws| == 0 then [] else [FreshClue(raws[0])] + FreshClues(raws[1..])
  }

  /** The question and answer of each clue, forgetting its reveal state. */
  function Strip(cs: seq<Clue>): (raws: seq<RawClue>)
    ensures |raws| == |cs|
  {
    if |cs| == 0 then [] else [RawClue(cs[0].question, cs[0].answer)] + Strip(cs[1..])
  }

  /**
   * `getCategory`: the category's title with the clues picked from it, in
   * the order they were picked. The pick itself is random and is given.
   */
  function GetCategory(raw: RawCategory, picked: seq<RawClue>): (cat: Category)
    ensures cat.title == raw.title
    ensures |cat.clues| == |picked|
    ensures forall c :: c in cat.clues ==> c.showing == Hidden
  {
    Category(raw.title, FreshClues(picked))
  }

  /** The mapping loses nothing: forgetting the reveal state gives back the picked clues. */
  lemma {:induction false} GetCategoryKeepsClues(raw: RawCategory, picked: seq<RawClue>)
    ensures Strip(GetCategory(raw, picked).clues) == picked
    decreases |picked|
  {
    if |picked| > 0 {
      GetCategoryKeepsClues(raw, picked[1..]);
      var cs := FreshClues(picked);
      assert cs[1..] == FreshClues(picked[1..]);
    }
  }
}
