/** Splitting, joining and filtering of sequences as Python's `split`, `join` and `filter` do them. */
module Lines {

  /** `s.split(sep)`: the runs between separators, in order; never empty, and no piece holds a separator. */
  function Split<T(==)>(s: seq<T>, sep: T): (r: seq<seq<T>>)
    ensures |r| > 0
  {
    if s == [] then [[]]
    else
      var rest := Split(s[1..], sep);
      if s[0] == sep then [[]] + rest
      else [[s[0]] + rest[0]] + rest[1..]
  }

  /** No piece of a split holds a separator. */
  lemma {:induction false} SplitPieces<T>(s: seq<T>, sep: T)
    ensures forall piece :: piece in Split(s, sep) ==> sep !in piece
  {
    if s != [] {
      var rest := Split(s[1..], sep);
      SplitPieces(s[1..], sep);
      if s[0] != sep {
        assert forall piece :: piece in rest[1..] ==> piece in rest;
        assert sep !in [s[0]] + rest[0] by {
          assert rest[0] in rest;
        }
      }
    }
  }

  /**
   * `sep.join(parts)`: the pieces in order with one separator between each two, so it begins
   * with the first piece and holds a separator as soon as there are two.
   */
  function Join<T>(parts: seq<seq<T>>, sep: T): (r: seq<T>)
    ensures parts == [] ==> r == []
    ensures parts != [] ==> parts[0] <= r
    ensures |parts| >= 2 ==> sep in r
  {
    if |parts| == 0 then []
    else if |parts| == 1 then parts[0]
    else parts[0] + [sep] + Join(parts[1..], sep)
  }

  /** A join ends as its last piece does. */
  lemma {:induction false} JoinLast<T>(parts: seq<seq<T>>, sep: T)
    requires parts != [] && parts[|parts| - 1] != []
    ensures var r := Join(parts, sep); var last := parts[|parts| - 1];
      |r| > 0 && r[|r| - 1] == last[|last| - 1]
    decreases |parts|
  {
    if |parts| > 1 {
      JoinLast(parts[1..], sep);
      assert parts[1..][|parts| - 2] == parts[|parts| - 1];
    }
  }

  /** `filter(keep, s)`: the elements of `s` that satisfy `keep`, in their original order. */
  function Filter<T(==)>(keep: T -> bool, s: seq<T>): (r: seq<T>)
    ensures |r| <= |s|
  {
    if s == [] then []
    else (if keep(s[0]) then [s[0]] else []) + Filter(keep, s[1..])
  }

  /** `filter` keeps exactly the elements of `s` that satisfy `keep`. */
  lemma {:induction false} FilterKeeps<T>(keep: T -> bool, s: seq<T>)
    ensures forall x :: x in Filter(keep, s) <==> x in s && keep(x)
  {
    if s != [] {
      FilterKeeps(keep, s[1..]);
      assert forall x :: x in s <==> x == s[0] || x in s[1..];
    }
  }

  /** Joining the pieces of a split gives back the original sequence. */
  lemma {:induction false} JoinSplit<T>(s: seq<T>, sep: T)
    ensures Join(Split(s, sep), sep) == s
  {
    if s != [] {
      var rest := Split(s[1..], sep);
      JoinSplit(s[1..], sep);
      if s[0] == sep {
        assert ([[]] + rest)[1..] == rest;
      } else {
        var parts := [[s[0]] + rest[0]] + rest[1..];
        if |rest| > 1 {
          assert parts[1..] == rest[1..];
        }
      }
    }
  }

  /** A sequence without separators splits into itself alone. */
  lemma {:induction false} SplitWithoutSep<T>(s: seq<T>, sep: T)
    requires sep !in s
    ensures Split(s, sep) == [s]
  {
    if s != [] {
      SplitWithoutSep(s[1..], sep);
      assert [s[0]] + s[1..] == s;
    }
  }

  /** Dropping the first element of `a + [sep] + b` drops it from `a`. */
  lemma DropFront<T>(a: seq<T>, b: seq<T>, sep: T)
    requires a != []
    ensures (a + [sep] + b)[0] == a[0]
    ensures (a + [sep] + b)[1..] == a[1..] + [sep] + b
  {
  }

  /** Regrouping the pieces of two splits once a leading element or piece is added. */
  lemma RegroupPieces<T>(x: seq<T>, left: seq<seq<T>>, right: seq<seq<T>>)
    requires |left| > 0
    ensures [x + left[0]] + (left + right)[1..] == ([x + left[0]] + left[1..]) + right
    ensures [[]] + (left + right) == ([[]] + left) + right
  {
    assert (left + right)[1..] == left[1..] + right;
  }

  /** The step of SplitAround: what holds of the tail of `a` holds of `a`. */
  lemma SplitAroundStep<T>(a: seq<T>, b: seq<T>, sep: T)
    requires a != []
    requires Split(a[1..] + [sep] + b, sep) == Split(a[1..], sep) + Split(b, sep)
    ensures Split(a + [sep] + b, sep) == Split(a, sep) + Split(b, sep)
  {
    DropFront(a, b, sep);
    RegroupPieces([a[0]], Split(a[1..], sep), Split(b, sep));
  }

  /** Splitting at a separator splits each side independently. */
  lemma {:induction false} SplitAround<T>(a: seq<T>, b: seq<T>, sep: T)
    ensures Split(a + [sep] + b, sep) == Split(a, sep) + Split(b, sep)
  {
    if a == [] {
      assert a + [sep] + b == [sep] + b;
      assert ([sep] + b)[1..] == b;
    } else {
      SplitAround(a[1..], b, sep);
      SplitAroundStep(a, b, sep);
    }
  }

  /** Splitting a join of separator-free pieces gives back the pieces. */
  lemma {:induction false} SplitJoin<T>(parts: seq<seq<T>>, sep: T)
    requires |parts| > 0
    requires forall i :: 0 <= i < |parts| ==> sep !in parts[i]
    ensures Split(Join(parts, sep), sep) == parts
  {
    SplitWithoutSep(parts[0], sep);
    if |parts| > 1 {
      SplitJoin(parts[1..], sep);
      SplitAround(parts[0], Join(parts[1..], sep), sep);
    }
  }

  /** Filtering distributes over concatenation, so it keeps the order of what it keeps. */
  lemma {:induction false} FilterAppend<T>(keep: T -> bool, a: seq<T>, b: seq<T>)
    ensures Filter(keep, a + b) == Filter(keep, a) + Filter(keep, b)
  {
    if a != [] {
      assert (a + b)[0] == a[0];
      assert (a + b)[1..] == a[1..] + b;
      FilterAppend(keep, a[1..], b);
    } else {
      assert a + b == b;
    }
  }

  /** Filtering a prefix one element longer: the element is kept exactly when `keep` holds of it. */
  lemma FilterExtend<T>(keep: T -> bool, s: seq<T>, i: nat)
    requires i < |s|
    ensures Filter(keep, s[..i + 1]) == Filter(keep, s[..i]) + if keep(s[i]) then [s[i]] else []
  {
    assert s[..i + 1] == s[..i] + [s[i]];
    FilterAppend(keep, s[..i], [s[i]]);
    assert [s[i]][1..] == [];
  }
}
