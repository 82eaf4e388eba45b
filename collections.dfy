/**
 * Sequence helpers shared by the validators: membership without repeats,
 * the first position of an element, and the "append unless already
 * present" fold that both validators run over their inputs.
 */
module Collections {

  datatype Option<T> = None | Some(value: T)

  predicate NoDuplicates<T(==)>(s: seq<T>) {
    forall i, j :: 0 <= i < j < |s| ==> s[i] != s[j]
  }

  /** Position of the first occurrence of `x` in `s`, or |s| when there is none. */
  function FirstIndex<T(==)>(s: seq<T>, x: T): (k: nat)
    ensures k <= |s|
    ensures k < |s| <==> x in s
    ensures k < |s| ==> s[k] == x
    ensures forall j :: 0 <= j < k ==> s[j] != x
  {
    if s == [] then 0 else if s[0] == x then 0 else 1 + FirstIndex(s[1..], x)
  }

  /** The `funk.Contains` guarded append: add `x` only when it is not yet there. */
  function AppendNew<T(==)>(s: seq<T>, x: T): seq<T> {
    if x in s then s else s + [x]
  }

  /**
   * The values carried by the `Some` entries of `marks`, each kept once,
   * at the position of its first occurrence: the left fold of AppendNew.
   */
  function Distinct<T(==)>(marks: seq<Option<T>>): seq<T>
    decreases |marks|
  {
    if marks == [] then []
    else
      var prefix := Distinct(marks[..|marks| - 1]);
      match marks[|marks| - 1]
      case None => prefix
      case Some(x) => AppendNew(prefix, x)
  }

  lemma {:induction false} DistinctMembership<T>(marks: seq<Option<T>>)
    ensures forall x :: x in Distinct(marks) <==> Some(x) in marks
    decreases |marks|
  {
    if marks != [] {
      var init := marks[..|marks| - 1];
      DistinctMembership(init);
      assert marks == init + [marks[|marks| - 1]];
    }
  }

  lemma {:induction false} DistinctNoDuplicates<T>(marks: seq<Option<T>>)
    ensures NoDuplicates(Distinct(marks))
    decreases |marks|
  {
    if marks != [] {
      DistinctNoDuplicates(marks[..|marks| - 1]);
    }
  }

  lemma DistinctEntryMarked<T>(marks: seq<Option<T>>, x: T)
    requires x in Distinct(marks)
    ensures Some(x) in marks
  {
    DistinctMembership(marks);
  }

  /** The entries of `r` appear in the order of their first `Some` in `marks`. */
  predicate InFirstOccurrenceOrder<T(==)>(marks: seq<Option<T>>, r: seq<T>) {
    forall j, k :: 0 <= j < k < |r| ==> FirstIndex(marks, Some(r[j])) < FirstIndex(marks, Some(r[k]))
  }

  /**
   * Entries of Distinct(marks) appear in the order in which their first
   * `Some` occurs in `marks`.
   */
  lemma {:induction false} DistinctFirstOccurrenceOrder<T>(marks: seq<Option<T>>)
    ensures InFirstOccurrenceOrder(marks, Distinct(marks))
    decreases |marks|
  {
    if marks != [] {
      var init := marks[..|marks| - 1];
      var last := marks[|marks| - 1];
      var d := Distinct(init);
      DistinctFirstOccurrenceOrder(init);
      forall j | 0 <= j < |d|
        ensures Some(d[j]) in init
      {
        DistinctEntryMarked(init, d[j]);
      }
      assert marks == init + [last];
      OrderSurvivesExtension(init, last, d);
      if last.Some? && last.value !in d {
        assert Distinct(marks) == d + [last.value];
        DistinctMembership(init);
        OrderWithNewLast(init, last.value, d);
      } else {
        assert Distinct(marks) == d;
      }
    }
  }

  /** Appending a mark does not move the first occurrence of values already present. */
  lemma OrderSurvivesExtension<T>(init: seq<Option<T>>, last: Option<T>, d: seq<T>)
    requires forall j :: 0 <= j < |d| ==> Some(d[j]) in init
    requires InFirstOccurrenceOrder(init, d)
    ensures forall j :: 0 <= j < |d| ==> FirstIndex(init + [last], Some(d[j])) == FirstIndex(init, Some(d[j])) < |init|
    ensures InFirstOccurrenceOrder(init + [last], d)
  {
    forall j | 0 <= j < |d|
      ensures FirstIndex(init + [last], Some(d[j])) == FirstIndex(init, Some(d[j])) < |init|
    {
      FirstIndexOfPrefix(init, [last], Some(d[j]));
    }
  }

  /** A value first marked at the end comes after every value marked before it. */
  lemma OrderWithNewLast<T>(init: seq<Option<T>>, v: T, d: seq<T>)
    requires Some(v) !in init
    requires forall j :: 0 <= j < |d| ==> FirstIndex(init + [Some(v)], Some(d[j])) < |init|
    requires InFirstOccurrenceOrder(init + [Some(v)], d)
    ensures InFirstOccurrenceOrder(init + [Some(v)], d + [v])
  {
    var marks := init + [Some(v)];
    var r := d + [v];
    assert FirstIndex(marks, Some(v)) == |init|;
    forall j, k | 0 <= j < k < |r|
      ensures FirstIndex(marks, Some(r[j])) < FirstIndex(marks, Some(r[k]))
    {
      assert r[j] == d[j];
      if k < |d| {
        assert r[k] == d[k];
      } else {
        assert r[k] == v;
      }
    }
  }

  lemma FirstIndexOfPrefix<T>(s: seq<T>, t: seq<T>, x: T)
    requires x in s
    ensures FirstIndex(s + t, x) == FirstIndex(s, x)
  {
    assert (s + t)[FirstIndex(s, x)] == x;
  }

  /**
   * A repeat-free sequence whose elements all lie in `universe` is no
   * longer than the universe.
   */
  lemma {:induction false} NoDuplicatesBound<T>(s: seq<T>, universe: set<T>)
    requires NoDuplicates(s)
    requires forall x :: x in s ==> x in universe
    ensures |s| <= |universe|
    decreases |s|
  {
    if s != [] {
      var rest := s[1..];
      forall x | x in rest
        ensures x in universe - {s[0]}
      {
        var i :| 0 <= i < |rest| && rest[i] == x;
        assert s[i + 1] == x;
      }
      NoDuplicatesBound(rest, universe - {s[0]});
    }
  }
}
