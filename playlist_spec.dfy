/** The value-level meaning of the playlist operators: set-style union and
    difference of song sequences, removal of every copy of one song, and
    what "pop last" leaves behind. Written for any element type with
    equality; the playlist uses them at `Song`. */
module PlaylistSpec {
  import opened ListSpec

  /** Playlist `+ Playlist`: `a` in order, then each element of `b` that the
      result built so far does not already contain. */
  function Union<T(==)>(a: seq<T>, b: seq<T>): seq<T>
  {
    if b == [] then a
    else
      var r := Union(a, b[..|b| - 1]);
      if b[|b| - 1] in r then r else r + [b[|b| - 1]]
  }

  /** Playlist `- Playlist`: the elements of `s` that do not occur in `b`. */
  function Difference<T(==)>(s: seq<T>, b: seq<T>): seq<T>
  {
    if s == [] then []
    else
      var r := Difference(s[..|s| - 1], b);
      if s[|s| - 1] in b then r else r + [s[|s| - 1]]
  }

  /** Playlist `- Song`: the elements of `s` different from `v`. */
  function Exclude<T(==)>(s: seq<T>, v: T): seq<T>
  {
    if s == [] then []
    else
      var r := Exclude(s[..|s| - 1], v);
      if s[|s| - 1] != v then r + [s[|s| - 1]] else r
  }

  /** Playlist `>>`: the last element is read off and then removed through a
      first-match removal. */
  function AfterPop<T(==)>(s: seq<T>): seq<T>
    requires s != []
  {
    RemoveFirst(s, s[|s| - 1])
  }

  // ----- one more element: how the walks extend their results -----

  lemma UnionSnoc<T>(a: seq<T>, b: seq<T>, x: T)
    ensures Union(a, b + [x]) == if x in Union(a, b) then Union(a, b) else Union(a, b) + [x]
  {
    assert (b + [x])[..|b|] == b;
  }

  lemma DifferenceSnoc<T>(s: seq<T>, x: T, b: seq<T>)
    ensures Difference(s + [x], b) == if x in b then Difference(s, b) else Difference(s, b) + [x]
  {
    assert (s + [x])[..|s|] == s;
  }

  lemma ExcludeSnoc<T>(s: seq<T>, x: T, v: T)
    ensures Exclude(s + [x], v) == if x != v then Exclude(s, v) + [x] else Exclude(s, v)
  {
    assert (s + [x])[..|s|] == s;
  }

  /** The same three facts for one more step of a walk from the head. */
  lemma UnionStep<T>(a: seq<T>, b: seq<T>, i: nat)
    requires i < |b|
    ensures Union(a, b[..i + 1]) == if b[i] in Union(a, b[..i]) then Union(a, b[..i]) else Union(a, b[..i]) + [b[i]]
  {
    TakeOneMore(b, i);
    UnionSnoc(a, b[..i], b[i]);
  }

  lemma DifferenceStep<T>(s: seq<T>, i: nat, b: seq<T>)
    requires i < |s|
    ensures Difference(s[..i + 1], b) == if s[i] in b then Difference(s[..i], b) else Difference(s[..i], b) + [s[i]]
  {
    TakeOneMore(s, i);
    DifferenceSnoc(s[..i], s[i], b);
  }

  lemma ExcludeStep<T>(s: seq<T>, i: nat, v: T)
    requires i < |s|
    ensures Exclude(s[..i + 1], v) == if s[i] != v then Exclude(s[..i], v) + [s[i]] else Exclude(s[..i], v)
  {
    TakeOneMore(s, i);
    ExcludeSnoc(s[..i], s[i], v);
  }

  // ----- union -----

  /** The union holds exactly the elements of either operand. */
  lemma {:induction false} UnionMembers<T>(a: seq<T>, b: seq<T>, x: T)
    ensures x in Union(a, b) <==> x in a || x in b
  {
    if b != [] {
      var init := b[..|b| - 1];
      UnionMembers(a, init, x);
      assert b == init + [b[|b| - 1]];
    }
  }

  /** The receiver's songs come first, unchanged and in order (its own
      duplicates included), and at most one new element per element of `b`. */
  lemma {:induction false} UnionKeepsReceiver<T>(a: seq<T>, b: seq<T>)
    ensures |a| <= |Union(a, b)| <= |a| + |b|
    ensures Union(a, b)[..|a|] == a
  {
    if b != [] {
      UnionKeepsReceiver(a, b[..|b| - 1]);
    }
  }

  /** What is appended after the receiver is new: no appended element occurs
      in the receiver, and no two appended elements are equal. */
  lemma {:induction false} UnionAppendsNovel<T>(a: seq<T>, b: seq<T>)
    ensures |a| <= |Union(a, b)|
    ensures forall i :: |a| <= i < |Union(a, b)| ==> Union(a, b)[i] !in a
    ensures forall i, j :: |a| <= i < j < |Union(a, b)| ==> Union(a, b)[i] != Union(a, b)[j]
  {
    if b != [] {
      var r := Union(a, b[..|b| - 1]);
      UnionAppendsNovel(a, b[..|b| - 1]);
      UnionKeepsReceiver(a, b[..|b| - 1]);
      var x := b[|b| - 1];
      if x !in r {
        assert forall y :: y in a ==> y in r by {
          forall y | y in a ensures y in r {
            var k :| 0 <= k < |a| && a[k] == y;
            assert r[k] == y;
          }
        }
      }
    }
  }

  /** When the receiver repeats no song, neither does the union, whatever
      repeats `b` holds. */
  lemma UnionDistinct<T>(a: seq<T>, b: seq<T>)
    requires Distinct(a)
    ensures Distinct(Union(a, b))
  {
    var r := Union(a, b);
    UnionKeepsReceiver(a, b);
    UnionAppendsNovel(a, b);
    forall i, j | 0 <= i < j < |r| ensures r[i] != r[j] {
      if j < |a| {
        assert r[i] == a[i] && r[j] == a[j];
      } else if i < |a| {
        assert r[i] == a[i];
      }
    }
  }

  /** Uniting with a playlist whose songs all occur in the receiver leaves
      the receiver's songs as they are. */
  lemma {:induction false} UnionOfContained<T>(a: seq<T>, b: seq<T>)
    requires forall x :: x in b ==> x in a
    ensures Union(a, b) == a
  {
    if b != [] {
      var init := b[..|b| - 1];
      assert forall x :: x in init ==> x in b;
      UnionOfContained(a, init);
      assert b[|b| - 1] in b;
    }
  }

  // ----- difference -----

  /** A song is in the difference exactly when it is in `s` and not in `b`. */
  lemma {:induction false} DifferenceMembers<T>(s: seq<T>, b: seq<T>, x: T)
    ensures x in Difference(s, b) <==> x in s && x !in b
  {
    if s != [] {
      var init := s[..|s| - 1];
      DifferenceMembers(init, b, x);
      assert s == init + [s[|s| - 1]];
    }
  }

  /** The difference keeps order: it distributes over concatenation of the
      receiver. */
  lemma {:induction false} DifferenceConcat<T>(s: seq<T>, t: seq<T>, b: seq<T>)
    ensures Difference(s + t, b) == Difference(s, b) + Difference(t, b)
  {
    if t == [] {
      assert s + t == s;
    } else {
      var init := t[..|t| - 1];
      assert (s + t)[..|s + t| - 1] == s + init;
      DifferenceConcat(s, init, b);
    }
  }

  /** Nothing is taken from `s` when it shares no song with `b`, and the
      difference is never longer than `s`. */
  lemma {:induction false} DifferenceOfDisjoint<T>(s: seq<T>, b: seq<T>)
    ensures |Difference(s, b)| <= |s|
    ensures (forall x :: x in s ==> x !in b) ==> Difference(s, b) == s
  {
    if s != [] {
      var init := s[..|s| - 1];
      assert forall x :: x in init ==> x in s;
      DifferenceOfDisjoint(init, b);
      assert s == init + [s[|s| - 1]];
    }
  }

  // ----- removing one song -----

  /** Removing one song by `- Song` is the difference with the playlist that
      holds only that song: every copy goes, the rest keeps its order. */
  lemma {:induction false} ExcludeIsDifference<T>(s: seq<T>, v: T)
    ensures Exclude(s, v) == Difference(s, [v])
  {
    if s != [] {
      ExcludeIsDifference(s[..|s| - 1], v);
    }
  }

  /** `- Song` takes out every copy of `v` and nothing else. */
  lemma {:induction false} ExcludeCount<T>(s: seq<T>, v: T)
    ensures multiset(Exclude(s, v)) == multiset(s)[v := 0]
    ensures |Exclude(s, v)| == |s| - multiset(s)[v]
  {
    if s != [] {
      var init, last := s[..|s| - 1], s[|s| - 1];
      ExcludeCount(init, v);
      assert s == init + [last];
      assert multiset(s) == multiset(init) + multiset{last};
      if last != v {
        assert multiset(Exclude(s, v)) == multiset(Exclude(init, v)) + multiset{last};
      }
    }
  }

  // ----- pop last -----

  /** `>>` shortens the playlist by exactly one copy of its last song. */
  lemma AfterPopShrinks<T>(s: seq<T>)
    requires s != []
    ensures |AfterPop(s)| == |s| - 1
    ensures multiset(AfterPop(s)) == multiset(s) - multiset{s[|s| - 1]}
  {
    RemoveFirstMultiset(s, s[|s| - 1]);
  }

  /** When the last song occurs only once, `>>` drops the last position. */
  lemma AfterPopOfUnique<T>(s: seq<T>)
    requires s != [] && s[|s| - 1] !in s[..|s| - 1]
    ensures AfterPop(s) == s[..|s| - 1]
  {
    RemoveFirstAt(s, s[|s| - 1], |s| - 1);
  }

  /** When the last song also occurs earlier, `>>` removes that earlier copy
      instead: the removal goes through the first-match `removeSong`. */
  lemma AfterPopTakesFirstCopy<T>(x: T, y: T)
    requires x != y
    ensures AfterPop([x, y, x]) == [y, x]
    ensures AfterPop([x, y, x]) != [x, y, x][..2]
  {
  }

}
