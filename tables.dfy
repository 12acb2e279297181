/** Tables: the few pandas idioms every page of the dashboard relies on,
    stated over plain sequences of rows. */
module Tables {

  datatype Option<+T> = None | Some(value: T)

  /** How a Dash callback argument (a dropdown value) is tested with
      `if x:` / `if not x:` — None and the empty string are falsy. */
  predicate Truthy(v: Option<string>) {
    v.Some? && v.value != ""
  }

  /** `df[mask]`: the rows for which the mask holds, in row order, with
      their multiplicities. */
  function Keep<T(!new)>(rows: seq<T>, p: T -> bool): (r: seq<T>)
    ensures |r| <= |rows|
    ensures forall x :: x in r <==> x in rows && p(x)
  {
    if rows == [] then []
    else
      assert rows == [rows[0]] + rows[1..];
      (if p(rows[0]) then [rows[0]] else []) + Keep(rows[1..], p)
  }

  /** A row the mask keeps is kept as many times as it occurs; a row it
      drops does not occur at all. */
  lemma {:induction false} KeepCounts<T(!new)>(rows: seq<T>, p: T -> bool, x: T)
    ensures multiset(Keep(rows, p))[x] == if p(x) then multiset(rows)[x] else 0
  {
    if rows != [] {
      assert rows == [rows[0]] + rows[1..];
      KeepCons(rows[0], rows[1..], p);
      KeepCounts(rows[1..], p, x);
    }
  }

  /** Masking a row in front of a list. */
  lemma KeepCons<T(!new)>(x: T, rest: seq<T>, p: T -> bool)
    ensures Keep([x] + rest, p) == (if p(x) then [x] else []) + Keep(rest, p)
  {
    assert ([x] + rest)[0] == x && ([x] + rest)[1..] == rest;
  }

  /** Masking distributes over concatenation: this fixes the order of the
      kept rows, which the membership and count clauses above do not. */
  lemma {:induction false} KeepAppend<T(!new)>(a: seq<T>, b: seq<T>, p: T -> bool)
    ensures Keep(a + b, p) == Keep(a, p) + Keep(b, p)
  {
    if a == [] {
      assert a + b == b;
    } else {
      var head := if p(a[0]) then [a[0]] else [];
      calc {
        Keep(a + b, p);
        { assert a + b == [a[0]] + (a[1..] + b); KeepCons(a[0], a[1..] + b, p); }
        head + Keep(a[1..] + b, p);
        { KeepAppend(a[1..], b, p); }
        head + (Keep(a[1..], p) + Keep(b, p));
        (head + Keep(a[1..], p)) + Keep(b, p);
        { assert a == [a[0]] + a[1..]; KeepCons(a[0], a[1..], p); }
        Keep(a, p) + Keep(b, p);
      }
    }
  }

  /** Two masks applied one after the other keep the rows that satisfy both. */
  lemma {:induction false} KeepKeep<T(!new)>(rows: seq<T>, p: T -> bool, q: T -> bool, both: T -> bool)
    requires forall x :: both(x) == (p(x) && q(x))
    ensures Keep(Keep(rows, p), q) == Keep(rows, both)
  {
    if rows != [] {
      KeepKeep(rows[1..], p, q, both);
      var head := if p(rows[0]) then [rows[0]] else [];
      KeepAppend(head, Keep(rows[1..], p), q);
    }
  }

  /** A mask that holds on every row keeps the table as it is. */
  lemma {:induction false} KeepEverything<T(!new)>(rows: seq<T>, p: T -> bool)
    requires forall x :: x in rows ==> p(x)
    ensures Keep(rows, p) == rows
  {
    if rows != [] {
      KeepEverything(rows[1..], p);
      assert rows == [rows[0]] + rows[1..];
    }
  }
}
