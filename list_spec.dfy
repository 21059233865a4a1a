/** The value-level meaning of the linked list's operations: what a search
    finds and what removing by value does to the sequence of stored values. */
module ListSpec {

  /** No element occurs twice. */
  ghost predicate Distinct<T>(s: seq<T>)
  {
    forall i, j :: 0 <= i < j < |s| ==> s[i] != s[j]
  }

  /** Splicing position `k` out of `s` shifts the later elements down by one
      and keeps a sequence without repetitions without repetitions. */
  lemma Splice<T>(s: seq<T>, k: nat, r: seq<T>)
    requires k < |s| && r == s[..k] + s[k + 1..]
    ensures |r| == |s| - 1
    ensures forall j :: 0 <= j < |r| ==> r[j] == s[if j < k then j else j + 1]
    ensures Distinct(s) ==> Distinct(r) && s[k] !in r
  {
    if Distinct(s) {
      forall a, b | 0 <= a < b < |r|
        ensures r[a] != r[b]
      {
        var a', b' := if a < k then a else a + 1, if b < k then b else b + 1;
        assert r[a] == s[a'] && r[b] == s[b'];
      }
      forall j | 0 <= j < |r|
        ensures r[j] != s[k]
      {
        assert r[j] == s[if j < k then j else j + 1];
      }
    }
  }

  /** A prefix one longer is the prefix and the next element. */
  lemma TakeOneMore<T>(s: seq<T>, i: nat)
    requires i < |s|
    ensures s[..i + 1] == s[..i] + [s[i]]
  {
  }

  /** Position of the first element equal to `v`. */
  function IndexOf<T(==)>(s: seq<T>, v: T): (k: nat)
    requires v in s
    ensures k < |s| && s[k] == v && v !in s[..k]
  {
    if s[0] == v then 0
    else
      var k := IndexOf(s[1..], v);
      assert s[..k + 1] == [s[0]] + s[1..][..k];
      k + 1
  }

  /** The sequence with its first element equal to `v` taken out; `s` itself
      when there is none. */
  function RemoveFirst<T(==)>(s: seq<T>, v: T): seq<T>
  {
    if s == [] then []
    else if s[0] == v then s[1..]
    else [s[0]] + RemoveFirst(s[1..], v)
  }

  /** One first-match removal per element of `o`, in the order of `o`. */
  function RemoveEach<T(==)>(s: seq<T>, o: seq<T>): seq<T>
  {
    if o == [] then s
    else RemoveFirst(RemoveEach(s, o[..|o| - 1]), o[|o| - 1])
  }

  /** Removing the elements of `o + [x]` is removing those of `o`, then `x`. */
  lemma RemoveEachSnoc<T>(s: seq<T>, o: seq<T>, x: T)
    ensures RemoveEach(s, o + [x]) == RemoveFirst(RemoveEach(s, o), x)
  {
    assert (o + [x])[..|o|] == o;
  }

  /** One more step of a walk over `o`: the removals of the first `i + 1`
      values are those of the first `i`, then one of `o[i]`. */
  lemma RemoveEachStep<T>(s: seq<T>, o: seq<T>, i: nat)
    requires i < |o|
    ensures RemoveEach(s, o[..i + 1]) == RemoveFirst(RemoveEach(s, o[..i]), o[i])
  {
    TakeOneMore(o, i);
    RemoveEachSnoc(s, o[..i], o[i]);
  }

  /** Removing at the first match splices that one position out. */
  lemma {:induction false} RemoveFirstAt<T>(s: seq<T>, v: T, k: nat)
    requires k < |s| && s[k] == v && v !in s[..k]
    ensures RemoveFirst(s, v) == s[..k] + s[k + 1..]
  {
    if k > 0 {
      assert s[0] in s[..k];
      assert s[1..][..k - 1] == s[1..k];
      RemoveFirstAt(s[1..], v, k - 1);
      assert s[..k] == [s[0]] + s[1..k];
      assert s[k + 1..] == s[1..][k..];
    }
  }

  /** Removing a value that is not there changes nothing. */
  lemma {:induction false} RemoveFirstAbsent<T>(s: seq<T>, v: T)
    requires v !in s
    ensures RemoveFirst(s, v) == s
  {
    if s != [] {
      assert s[1..] + [] == s[1..];
      assert forall x :: x in s[1..] ==> x in s;
      RemoveFirstAbsent(s[1..], v);
    }
  }

  /** The first match is the occurrence that goes: exactly one copy of `v`
      is gone when `v` occurs, nothing otherwise. */
  lemma {:induction false} RemoveFirstMultiset<T>(s: seq<T>, v: T)
    ensures multiset(RemoveFirst(s, v)) == multiset(s) - multiset{v}
    ensures |RemoveFirst(s, v)| == if v in s then |s| - 1 else |s|
  {
    if s != [] {
      assert s == [s[0]] + s[1..];
      if s[0] != v {
        RemoveFirstMultiset(s[1..], v);
        assert v in s <==> v in s[1..];
      }
    }
  }

  /** `removeList` and the list's `-` take away one copy per element of
      `o`: multiset difference, not removal of every occurrence. */
  lemma {:induction false} RemoveEachMultiset<T>(s: seq<T>, o: seq<T>)
    ensures multiset(RemoveEach(s, o)) == multiset(s) - multiset(o)
  {
    if o != [] {
      var init, last := o[..|o| - 1], o[|o| - 1];
      RemoveEachMultiset(s, init);
      RemoveFirstMultiset(RemoveEach(s, init), last);
      assert o == init + [last];
    }
  }

  /** A repeated value survives a single removal of it. */
  lemma RemoveEachKeepsOtherCopies<T>(x: T)
    ensures RemoveEach([x, x], [x]) == [x]
  {
    assert [x][..0] == [];
  }

}
