/**
 * The three JMESPath operations the catalog queries are built from, over
 * sequences: a filter projection `[?cond]`, a field projection `.field`
 * (which drops elements whose field is null or missing) and the flatten
 * operator `[]`. Every one of them keeps the order of its input.
 */
module Projections {
  import opened Wrappers

  /** `[?cond]`: the elements satisfying `keep`, in their original order. */
  function Filter<T>(s: seq<T>, keep: T -> bool): (r: seq<T>)
    ensures |r| <= |s|
  {
    if |s| == 0 then []
    else (if keep(s[0]) then [s[0]] else []) + Filter(s[1..], keep)
  }

  /** `.field`: the present field values, in order; null results vanish. */
  function Pluck<T, U>(s: seq<T>, field: T -> Option<U>): (r: seq<U>)
    ensures |r| <= |s|
  {
    if |s| == 0 then []
    else
      match field(s[0])
      case Some(y) => [y] + Pluck(s[1..], field)
      case None => Pluck(s[1..], field)
  }

  /** `[]`: concatenation of the inner lists, outer order first. */
  function Flatten<T>(ss: seq<seq<T>>): (r: seq<T>)
    ensures forall i :: 0 <= i < |ss| ==> |ss[i]| <= |r|
    ensures |ss| == 1 ==> r == ss[0]
  {
    if |ss| == 0 then []
    else
      var rest := Flatten(ss[1..]);
      assert forall i :: 1 <= i < |ss| ==> ss[i] == ss[1..][i - 1];
      ss[0] + rest
  }

  lemma {:induction false} FilterMembers<T(!new)>(s: seq<T>, keep: T -> bool)
    ensures forall x :: x in Filter(s, keep) <==> x in s && keep(x)
    decreases |s|
  {
    if |s| > 0 {
      FilterMembers(s[1..], keep);
      assert s == [s[0]] + s[1..];
    }
  }

  lemma {:induction false} PluckMembers<T, U(!new)>(s: seq<T>, field: T -> Option<U>)
    ensures forall i :: 0 <= i < |s| && field(s[i]).Some? ==> field(s[i]).value in Pluck(s, field)
    ensures forall y :: y in Pluck(s, field) ==> exists i :: 0 <= i < |s| && field(s[i]) == Some(y)
    decreases |s|
  {
    if |s| > 0 {
      PluckMembers(s[1..], field);
      assert forall i :: 1 <= i < |s| ==> s[i] == s[1..][i - 1];
      forall y | y in Pluck(s, field)
        ensures exists i :: 0 <= i < |s| && field(s[i]) == Some(y)
      {
        if field(s[0]) != Some(y) {
          assert y in Pluck(s[1..], field);
          var i :| 0 <= i < |s[1..]| && field(s[1..][i]) == Some(y);
          assert field(s[i + 1]) == Some(y);
        }
      }
    }
  }

  lemma {:induction false} FlattenMembers<T(!new)>(ss: seq<seq<T>>)
    ensures forall i, x :: 0 <= i < |ss| && x in ss[i] ==> x in Flatten(ss)
    ensures forall x :: x in Flatten(ss) ==> exists i :: 0 <= i < |ss| && x in ss[i]
    decreases |ss|
  {
    if |ss| > 0 {
      FlattenMembers(ss[1..]);
      assert forall i :: 1 <= i < |ss| ==> ss[i] == ss[1..][i - 1];
      forall x | x in Flatten(ss)
        ensures exists i :: 0 <= i < |ss| && x in ss[i]
      {
        if x !in ss[0] {
          assert x in Flatten(ss[1..]);
          var i :| 0 <= i < |ss[1..]| && x in ss[1..][i];
          assert x in ss[i + 1];
        }
      }
    }
  }

  lemma {:induction false} FilterAppend<T>(a: seq<T>, b: seq<T>, keep: T -> bool)
    ensures Filter(a + b, keep) == Filter(a, keep) + Filter(b, keep)
    decreases |a|
  {
    if |a| == 0 {
      assert a + b == b;
    } else {
      var head := if keep(a[0]) then [a[0]] else [];
      assert (a + b)[0] == a[0];
      assert (a + b)[1..] == a[1..] + b;
      FilterAppend(a[1..], b, keep);
      calc {
        Filter(a + b, keep);
        head + Filter(a[1..] + b, keep);
        head + (Filter(a[1..], keep) + Filter(b, keep));
        (head + Filter(a[1..], keep)) + Filter(b, keep);
        Filter(a, keep) + Filter(b, keep);
      }
    }
  }

  lemma {:induction false} PluckAppend<T, U>(a: seq<T>, b: seq<T>, field: T -> Option<U>)
    ensures Pluck(a + b, field) == Pluck(a, field) + Pluck(b, field)
    decreases |a|
  {
    if |a| == 0 {
      assert a + b == b;
    } else {
      assert (a + b)[1..] == a[1..] + b;
      PluckAppend(a[1..], b, field);
    }
  }

  lemma {:induction false} FlattenAppend<T>(a: seq<seq<T>>, b: seq<seq<T>>)
    ensures Flatten(a + b) == Flatten(a) + Flatten(b)
    decreases |a|
  {
    if |a| == 0 {
      assert a + b == b;
    } else {
      assert (a + b)[1..] == a[1..] + b;
      FlattenAppend(a[1..], b);
    }
  }
}
