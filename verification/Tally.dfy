/** Multisets that agree with a list of optional contributions. */
module Tally {
  import opened Options

  ghost function CountTo<T(!new)>(c: seq<Option<T>>, n: nat, f: Option<T> -> bool): (h: nat)
    requires n <= |c|
    ensures h <= n
  {
    if n == 0 then 0 else CountTo(c, n - 1, f) + (if f(c[n - 1]) then 1 else 0)
  }

  ghost function Is<T(!new)>(v: T): Option<T> -> bool {
    o => o == Some(v)
  }

  ghost function Present<T(!new)>(): Option<T> -> bool {
    (o: Option<T>) => o.Some?
  }

  /** The number of contributions. */
  ghost function Live<T(!new)>(c: seq<Option<T>>): nat {
    CountTo(c, |c|, Present())
  }

  /** Every value is in the multiset as often as it is contributed. */
  ghost predicate Tallies<T(!new)>(ms: multiset<T>, c: seq<Option<T>>) {
    && |ms| == Live(c)
    && (forall v {:trigger Is(v)} :: ms[v] == CountTo(c, |c|, Is(v)))
  }

  lemma TalliesSame<T(!new)>(a: multiset<T>, b: multiset<T>, c: seq<Option<T>>)
    requires Tallies(a, c) && Tallies(b, c)
    ensures a == b
  {
    forall v
      ensures a[v] == b[v]
    {
      assert a[v] == CountTo(c, |c|, Is(v)) == b[v];
    }
  }

  ghost function In<T(!new)>(o: Option<T>): multiset<T> {
    match o
    case None => multiset{}
    case Some(v) => multiset{v}
  }

  ghost function Insert<T(!new)>(c: seq<Option<T>>, k: nat, o: Option<T>): seq<Option<T>>
    requires k <= |c|
  {
    c[..k] + [o] + c[k..]
  }

  lemma {:induction false} CountReplace<T(!new)>(c: seq<Option<T>>, k: nat, o: Option<T>, n: nat, f: Option<T> -> bool)
    requires k < |c| && n <= |c|
    ensures CountTo(c[k := o], n, f) + (if k < n && f(c[k]) then 1 else 0)
         == CountTo(c, n, f) + (if k < n && f(o) then 1 else 0)
  {
    if n > 0 {
      CountReplace(c, k, o, n - 1, f);
    }
  }

  lemma {:induction false} CountInsert<T(!new)>(c: seq<Option<T>>, k: nat, o: Option<T>, n: nat, f: Option<T> -> bool)
    requires k <= |c| && n <= |c| + 1
    ensures CountTo(Insert(c, k, o), n, f)
         == if n <= k then CountTo(c, n, f) else CountTo(c, n - 1, f) + (if f(o) then 1 else 0)
  {
    if n > 0 {
      CountInsert(c, k, o, n - 1, f);
    }
  }

  /** Replacing one contribution exchanges it in the multiset, and nothing else. */
  lemma TalliesReplace<T(!new)>(ms: multiset<T>, c: seq<Option<T>>, k: nat, o: Option<T>)
    requires k < |c| && Tallies(ms, c)
    ensures In(c[k]) <= ms
    ensures Tallies(ms - In(c[k]) + In(o), c[k := o])
  {
    CountReplace(c, k, o, |c|, Present<T>());
    if c[k].Some? {
      CountReplace(c, k, None, |c|, Is(c[k].value));
      assert ms[c[k].value] > 0;
    }
    forall v
      ensures (ms - In(c[k]) + In(o))[v] == CountTo(c[k := o], |c|, Is(v))
    {
      CountReplace(c, k, o, |c|, Is(v));
    }
  }

  /** Taking one contribution away. */
  lemma TalliesClear<T(!new)>(ms: multiset<T>, c: seq<Option<T>>, k: nat, v: T)
    requires k < |c| && c[k] == Some(v) && Tallies(ms, c)
    ensures v in ms && |ms| > 0
    ensures Tallies(ms - multiset{v}, c[k := None])
    ensures ms - multiset{v} + multiset{v} == ms
  {
    TalliesReplace(ms, c, k, None);
    assert ms - In(c[k]) + In<T>(None) == ms - multiset{v};
  }

  /** Adding a contribution changes the multiset. */
  lemma TalliesFill<T(!new)>(ms: multiset<T>, c: seq<Option<T>>, k: nat, v: T)
    requires k < |c| && c[k].None? && Tallies(ms, c)
    ensures Tallies(ms + multiset{v}, c[k := Some(v)])
    ensures !Tallies(ms, c[k := Some(v)])
    ensures c[k := Some(v)][k := None] == c
  {
    TalliesReplace(ms, c, k, Some(v));
    assert ms - In(c[k]) + In(Some(v)) == ms + multiset{v};
    CountReplace(c, k, Some(v), |c|, Present<T>());
  }

  lemma TalliesAdd<T(!new)>(ms: multiset<T>, c: seq<Option<T>>, k: nat, v: T)
    requires k <= |c| && Tallies(ms, c)
    ensures Tallies(ms + multiset{v}, Insert(c, k, Some(v)))
    ensures !Tallies(ms, Insert(c, k, Some(v)))
  {
    TalliesInsert(ms, c, k, Some(v));
    CountInsert(c, k, Some(v), |c| + 1, Present<T>());
  }

  lemma TalliesRemove<T(!new)>(ms: multiset<T>, c: seq<Option<T>>, k: nat, v: T)
    requires k <= |c| && Tallies(ms, Insert(c, k, Some(v)))
    ensures v in ms && |ms| > 0
    ensures Tallies(ms - multiset{v}, c)
  {
    TalliesDelete(ms, c, k, Some(v));
  }

  lemma TalliesInsert<T(!new)>(ms: multiset<T>, c: seq<Option<T>>, k: nat, o: Option<T>)
    requires k <= |c|
    ensures Tallies(ms, c) ==> Tallies(ms + In(o), Insert(c, k, o))
  {
    if Tallies(ms, c) {
      CountInsert(c, k, o, |c| + 1, Present<T>());
      forall v
        ensures (ms + In(o))[v] == CountTo(Insert(c, k, o), |c| + 1, Is(v))
      {
        CountInsert(c, k, o, |c| + 1, Is(v));
      }
    }
  }

  lemma TalliesDelete<T(!new)>(ms: multiset<T>, c: seq<Option<T>>, k: nat, o: Option<T>)
    requires k <= |c| && Tallies(ms, Insert(c, k, o))
    ensures In(o) <= ms
    ensures Tallies(ms - In(o), c)
  {
    CountInsert(c, k, o, |c| + 1, Present<T>());
    if o.Some? {
      CountInsert(c, k, o, |c| + 1, Is(o.value));
      assert ms[o.value] > 0;
    }
    forall v
      ensures (ms - In(o))[v] == CountTo(c, |c|, Is(v))
    {
      CountInsert(c, k, o, |c| + 1, Is(v));
    }
  }

  lemma {:induction false} CountPositive<T(!new)>(c: seq<Option<T>>, n: nat, v: T)
    requires n <= |c|
    ensures CountTo(c, n, Is(v)) > 0 <==> exists k | 0 <= k < n :: c[k] == Some(v)
  {
    if n > 0 {
      CountPositive(c, n - 1, v);
    }
  }

  lemma TalliesMember<T(!new)>(ms: multiset<T>, c: seq<Option<T>>, v: T)
    requires Tallies(ms, c)
    ensures v in ms <==> exists k | 0 <= k < |c| :: c[k] == Some(v)
  {
    CountPositive(c, |c|, v);
  }
}
