/**
 * Cell addressing of the board. `fillTable` gives every clue cell the id
 * `${catIndex}-${clueIndex}` and `handleClick` takes it apart again with
 * `id.split("-")`, using the two pieces as array keys of `categories` and
 * of a category's `clues`.
 */
module CellIds {
  import opened Wrappers

  const Separator: char := '-'

  predicate IsDigit(ch: char) {
    '0' <= ch <= '9'
  }

  function DigitChar(d: nat): (ch: char)
    requires d < 10
    ensures IsDigit(ch) && ch as int - '0' as int == d
  {
    ('0' as int + d) as char
  }

  function DigitValue(ch: char): (d: nat)
    requires IsDigit(ch)
    ensures d < 10 && DigitChar(d) == ch
  {
    (ch as int - '0' as int) as nat
  }

  /** Strings JavaScript produces for a non-negative integer: decimal digits, no leading zero. */
  predicate IsCanonical(s: string) {
    && |s| > 0
    && (forall i :: 0 <= i < |s| ==> IsDigit(s[i]))
    && (s[0] == '0' ==> |s| == 1)
  }

  /** Decimal rendering of a number, as the template literal `${n}` does it. */
  function NatToString(n: nat): (s: string)
    ensures IsCanonical(s)
    ensures Separator !in s
    decreases n
  {
    if n < 10 then [DigitChar(n)]
    else NatToString(n / 10) + [DigitChar(n % 10)]
  }

  /** Value of a string of decimal digits. */
  function DigitsValue(s: string): nat
    requires forall i :: 0 <= i < |s| ==> IsDigit(s[i])
  {
    if |s| == 0 then 0
    else DigitsValue(s[..|s| - 1]) * 10 + DigitValue(s[|s| - 1])
  }

  /**
   * Array lookup with a string key: `a["3"]` is element 3, while a key that
   * is not the canonical rendering of an index (`"03"`, `""`, `"x"`) names
   * no element and yields `undefined`.
   */
  function ParseIndex(s: string): Option<nat> {
    if IsCanonical(s) then Some(DigitsValue(s)) else None
  }

  /** The id `fillTable` gives the cell of clue `clueIndex` in category `catIndex`. */
  function CellId(catIndex: nat, clueIndex: nat): string {
    NatToString(catIndex) + [Separator] + NatToString(clueIndex)
  }

  /** `String.prototype.split` with a one-character separator. */
  function Split(s: string, sep: char): (parts: seq<string>)
    ensures |parts| >= 1
  {
    if |s| == 0 then [""]
    else
      var rest := Split(s[1..], sep);
      if s[0] == sep then [""] + rest
      else [[s[0]] + rest[0]] + rest[1..]
  }

  /** `Array.prototype.join`, a left inverse of `Split` (see SplitJoin). */
  function Join(parts: seq<string>, sep: char): string
    requires |parts| >= 1
  {
    if |parts| == 1 then parts[0]
    else parts[0] + [sep] + Join(parts[1..], sep)
  }

  /**
   * `let [catId, clueId] = id.split("-")` followed by the two array lookups:
   * `None` when either piece is missing or names no index.
   */
  function Decode(id: string): Option<(nat, nat)> {
    var parts := Split(id, Separator);
    if |parts| < 2 then None
    else
      match (ParseIndex(parts[0]), ParseIndex(parts[1]))
      case (Some(c), Some(r)) => Some((c, r))
      case _ => None
  }

  // ---------------------------------------------------------------------
  // Number rendering and parsing are inverse to each other.

  lemma {:induction false} ParseNatToString(n: nat)
    ensures ParseIndex(NatToString(n)) == Some(n)
    decreases n
  {
    var s := NatToString(n);
    if n < 10 {
      assert DigitsValue(s) == DigitsValue([]) * 10 + DigitValue(DigitChar(n));
    } else {
      ParseNatToString(n / 10);
      assert s[..|s| - 1] == NatToString(n / 10);
      assert DigitsValue(s) == DigitsValue(NatToString(n / 10)) * 10 + DigitValue(DigitChar(n % 10));
    }
  }

  lemma {:induction false} CanonicalValuePositive(s: string)
    requires IsCanonical(s) && s[0] != '0'
    ensures DigitsValue(s) >= 1
    decreases |s|
  {
    if |s| > 1 {
      CanonicalValuePositive(s[..|s| - 1]);
    }
  }

  lemma {:induction false} NatToStringParse(s: string, n: nat)
    requires ParseIndex(s) == Some(n)
    ensures NatToString(n) == s
    decreases |s|
  {
    if |s| > 1 {
      var init := s[..|s| - 1];
      assert IsCanonical(init);
      CanonicalValuePositive(init);
      NatToStringParse(init, DigitsValue(init));
    }
  }

  /** A key is an index exactly when it is the rendering of that index. */
  lemma ParseIndexIff(s: string, n: nat)
    ensures ParseIndex(s) == Some(n) <==> s == NatToString(n)
  {
    if ParseIndex(s) == Some(n) {
      NatToStringParse(s, n);
    }
    if s == NatToString(n) {
      ParseNatToString(n);
    }
  }

  // ---------------------------------------------------------------------
  // Split and Join.

  lemma {:induction false} SplitJoin(s: string, sep: char)
    ensures Join(Split(s, sep), sep) == s
    ensures forall i :: 0 <= i < |Split(s, sep)| ==> sep !in Split(s, sep)[i]
    decreases |s|
  {
    if |s| > 0 {
      SplitJoin(s[1..], sep);
      var rest := Split(s[1..], sep);
      if s[0] != sep {
        var parts := Split(s, sep);
        assert parts[0] == [s[0]] + rest[0];
        if |rest| > 1 {
          assert parts[1..] == rest[1..];
        }
      }
    }
  }

  lemma {:induction false} SplitNoSeparator(s: string, sep: char)
    requires sep !in s
    ensures Split(s, sep) == [s]
    decreases |s|
  {
    if |s| > 0 {
      SplitNoSeparator(s[1..], sep);
      assert [s[0]] + s[1..] == s;
    }
  }

  lemma {:induction false} SplitAfterPiece(x: string, y: string, sep: char)
    requires sep !in x
    ensures Split(x + [sep] + y, sep) == [x] + Split(y, sep)
    decreases |x|
  {
    if |x| == 0 {
      assert x + [sep] + y == [sep] + y;
      assert ([sep] + y)[1..] == y;
    } else {
      SplitAfterPiece(x[1..], y, sep);
      assert (x + [sep] + y)[1..] == x[1..] + [sep] + y;
      assert [x[0]] + x[1..] == x;
    }
  }

  // ---------------------------------------------------------------------
  // Cell ids round-trip.

  lemma SplitCellId(catIndex: nat, clueIndex: nat)
    ensures Split(CellId(catIndex, clueIndex), Separator) == [NatToString(catIndex), NatToString(clueIndex)]
  {
    SplitAfterPiece(NatToString(catIndex), NatToString(clueIndex), Separator);
    SplitNoSeparator(NatToString(clueIndex), Separator);
  }

  /** Splitting a cell id and looking its pieces up gives back the indices it was built from. */
  lemma DecodeCellId(catIndex: nat, clueIndex: nat)
    ensures Decode(CellId(catIndex, clueIndex)) == Some((catIndex, clueIndex))
  {
    SplitCellId(catIndex, clueIndex);
    ParseNatToString(catIndex);
    ParseNatToString(clueIndex);
  }

  /** Different cells get different ids. */
  lemma CellIdInjective(c1: nat, r1: nat, c2: nat, r2: nat)
    ensures CellId(c1, r1) == CellId(c2, r2) <==> c1 == c2 && r1 == r2
  {
    DecodeCellId(c1, r1);
    DecodeCellId(c2, r2);
  }

  /**
   * Converse of DecodeCellId: an id that decodes to `(c, r)` begins with the
   * cell id of `(c, r)`, and is that id when it holds a single separator.
   * Pieces after the second one are dropped by the destructuring.
   */
  lemma DecodeSound(id: string, catIndex: nat, clueIndex: nat)
    requires Decode(id) == Some((catIndex, clueIndex))
    ensures Split(id, Separator)[..2] == [NatToString(catIndex), NatToString(clueIndex)]
    ensures |Split(id, Separator)| == 2 ==> id == CellId(catIndex, clueIndex)
  {
    var parts := Split(id, Separator);
    NatToStringParse(parts[0], catIndex);
    NatToStringParse(parts[1], clueIndex);
    if |parts| == 2 {
      SplitJoin(id, Separator);
      assert parts[1..] == [parts[1]];
    }
  }
}
