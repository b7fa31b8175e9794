/** Values as the SQLite store binds and stores them, and facts about SQL text. */
module Sql {

  /** A value that may be JavaScript `undefined`/`null`, bound and stored as SQL NULL. */
  datatype Option<+T> = None | Some(value: T)

  /** A value bound to one `?` placeholder of a statement. */
  datatype Value = Int(i: int) | Text(s: string)

  /** The number of occurrences of `c` in `s` (used for counting `?` placeholders). */
  function Occurrences(c: char, s: string): nat
  {
    if s == [] then 0
    else Occurrences(c, s[..|s| - 1]) + (if s[|s| - 1] == c then 1 else 0)
  }

  lemma {:induction false} OccurrencesAppend(c: char, a: string, b: string)
    ensures Occurrences(c, a + b) == Occurrences(c, a) + Occurrences(c, b)
  {
    if b == [] {
      assert a + b == a;
    } else {
      assert (a + b)[..|a + b| - 1] == a + b[..|b| - 1];
      OccurrencesAppend(c, a, b[..|b| - 1]);
    }
  }

  /** A string in which no position holds `c` has no occurrence of `c`. */
  lemma {:induction false} OccurrencesNone(c: char, s: string)
    requires forall i :: 0 <= i < |s| ==> s[i] != c
    ensures Occurrences(c, s) == 0
  {
    if s != [] {
      OccurrencesNone(c, s[..|s| - 1]);
    }
  }

  /** SQL `x + y` over nullable integers: NULL if either operand is NULL, the sum otherwise. */
  function NullableAdd(x: Option<int>, y: Option<int>): (r: Option<int>)
    ensures r.Some? <==> x.Some? && y.Some?
    ensures r.Some? ==> r.value - x.value == y.value
  {
    match (x, y)
    case (Some(a), Some(b)) => Some(a + b)
    case _ => None
  }

  /** Sum of a sequence of deltas. */
  function Sum(ds: seq<int>): int
  {
    if ds == [] then 0 else Sum(ds[..|ds| - 1]) + ds[|ds| - 1]
  }

  /** Adds the deltas one after the other, as a run of `pageviews = pageviews + ?` statements does. */
  function AddAll(x: Option<int>, ds: seq<int>): Option<int>
  {
    if ds == [] then x else NullableAdd(AddAll(x, ds[..|ds| - 1]), Some(ds[|ds| - 1]))
  }

  /** Repeated increments accumulate: a non-NULL start ends at start plus the sum of the deltas, a NULL start stays NULL. */
  lemma {:induction false} AddAllIsSum(x: Option<int>, ds: seq<int>)
    ensures x.Some? ==> AddAll(x, ds) == Some(x.value + Sum(ds))
    ensures x.None? ==> AddAll(x, ds) == None
  {
    if ds != [] {
      AddAllIsSum(x, ds[..|ds| - 1]);
    }
  }
}
