/** Sequence operations standing for the SQL clauses of the dashboard's
    queries: a WHERE clause is `Filter`, a column list is `Map`, and
    `LIMIT 1` is `First`. A table is a sequence of records in table order. */
module Seqs {

  datatype Option<T> = None | Some(value: T)

  /** WHERE: the rows for which `p` holds, in table order. */
  function Filter<T(!new)>(p: T -> bool, s: seq<T>): (r: seq<T>)
    ensures |r| <= |s|
    ensures forall x :: x in r <==> x in s && p(x)
  {
    if s == [] then []
    else
      assert s == [s[0]] + s[1..];
      (if p(s[0]) then [s[0]] else []) + Filter(p, s[1..])
  }

  /** SELECT of a column list: one projected row per input row. */
  function Map<T, U>(f: T -> U, s: seq<T>): (r: seq<U>)
    ensures |r| == |s|
    ensures forall i :: 0 <= i < |s| ==> r[i] == f(s[i])
  {
    if s == [] then [] else [f(s[0])] + Map(f, s[1..])
  }

  /** LIMIT 1: the first row of a row set, or none when it is empty. */
  function First<T>(s: seq<T>): Option<T>
  {
    if s == [] then None else Some(s[0])
  }

  /** Filtering distributes over concatenation of tables. */
  lemma {:induction false} FilterConcat<T(!new)>(p: T -> bool, a: seq<T>, b: seq<T>)
    ensures Filter(p, a + b) == Filter(p, a) + Filter(p, b)
  {
    if a == [] {
      assert a + b == b;
    } else {
      assert (a + b)[1..] == a[1..] + b;
      FilterConcat(p, a[1..], b);
    }
  }

  /** A row that satisfies `p` lands in the filtered table at the position
      given by the number of satisfying rows before it: the filter keeps
      table order. */
  lemma FilterAt<T(!new)>(p: T -> bool, s: seq<T>, i: nat)
    requires i < |s| && p(s[i])
    ensures |Filter(p, s[..i])| < |Filter(p, s)|
    ensures Filter(p, s)[|Filter(p, s[..i])|] == s[i]
  {
    assert s == s[..i] + s[i..];
    FilterConcat(p, s[..i], s[i..]);
    assert s[i..] == [s[i]] + s[i + 1..];
    FilterConcat(p, [s[i]], s[i + 1..]);
  }

  /** LIMIT 1 over a WHERE clause: there is no row exactly when no row
      satisfies `p`, and otherwise it is the first satisfying row. */
  lemma {:induction false} FirstOfFilter<T(!new)>(p: T -> bool, s: seq<T>)
    ensures First(Filter(p, s)).None? <==> forall i :: 0 <= i < |s| ==> !p(s[i])
    ensures First(Filter(p, s)).Some? ==>
      exists i :: 0 <= i < |s| && p(s[i]) && First(Filter(p, s)).value == s[i] &&
        forall j :: 0 <= j < i ==> !p(s[j])
  {
    if s != [] {
      if p(s[0]) {
        assert Filter(p, s)[0] == s[0];
      } else {
        FirstOfFilter(p, s[1..]);
        assert Filter(p, s) == Filter(p, s[1..]);
        if First(Filter(p, s)).Some? {
          var i :| 0 <= i < |s[1..]| && p(s[1..][i]) && First(Filter(p, s)).value == s[1..][i] &&
            forall j :: 0 <= j < i ==> !p(s[1..][j]);
          assert forall j :: 0 <= j < i + 1 ==> !p(s[j]) by {
            forall j | 0 <= j < i + 1 ensures !p(s[j]) {
              if j > 0 { assert s[j] == s[1..][j - 1]; }
            }
          }
        } else {
          forall i | 0 <= i < |s| ensures !p(s[i]) {
            if i > 0 { assert s[i] == s[1..][i - 1]; }
          }
        }
      }
    }
  }
}
