/** Result types and sequence helpers shared by the component models. */
module Common {

  datatype Option<+T> = None | Some(value: T)

  datatype Result<+T, +E> = Ok(value: T) | Err(error: E)

  function UnwrapOr<T>(o: Option<T>, default: T): (r: T) {
    if o.Some? then o.value else default
  }

  /** A condition as a count. */
  function One(b: bool): (n: nat) {
    if b then 1 else 0
  }

  /** The first `n` elements, or all of them when there are fewer. */
  function Take<T>(s: seq<T>, n: nat): (r: seq<T>)
    ensures r <= s
    ensures |r| == if n <= |s| then n else |s|
  {
    if n <= |s| then s[..n] else s
  }

  /** The elements of `s` that satisfy `p`, in order. */
  function Filter<T>(s: seq<T>, p: T -> bool): (r: seq<T>)
  {
    if s == [] then []
    else if p(s[0]) then [s[0]] + Filter(s[1..], p)
    else Filter(s[1..], p)
  }

  lemma {:induction false} FilterConcat<T>(a: seq<T>, b: seq<T>, p: T -> bool)
    ensures Filter(a + b, p) == Filter(a, p) + Filter(b, p)
  {
    if a == [] {
      assert a + b == b;
    } else {
      assert (a + b)[1..] == a[1..] + b;
      FilterConcat(a[1..], b, p);
    }
  }

  /** Extending the input by one element extends the output by that element exactly when it is kept. */
  lemma FilterSnoc<T>(s: seq<T>, x: T, p: T -> bool)
    ensures Filter(s + [x], p) == Filter(s, p) + (if p(x) then [x] else [])
  {
    FilterConcat(s, [x], p);
  }

  lemma {:induction false} FilterAll<T>(s: seq<T>, p: T -> bool)
    requires forall x <- s :: p(x)
    ensures Filter(s, p) == s
  {
    if s != [] {
      FilterAll(s[1..], p);
    }
  }

  /** `r` reads off `s` at exactly the positions whose element satisfies `p`, in order and once each. */
  ghost predicate PicksAll<T>(s: seq<T>, p: T -> bool, picks: seq<nat>, r: seq<T>) {
    && |picks| == |r|
    && (forall i, j :: 0 <= i < j < |picks| ==> picks[i] < picks[j])
    && (forall i :: 0 <= i < |picks| ==> picks[i] < |s| && r[i] == s[picks[i]])
    && (forall k :: k in picks <==> 0 <= k < |s| && p(s[k]))
  }

  lemma {:induction false} FilterPositions<T>(s: seq<T>, p: T -> bool) returns (picks: seq<nat>)
    ensures PicksAll(s, p, picks, Filter(s, p))
  {
    picks := [];
    if s != [] {
      var n := |s| - 1;
      assert s == s[..n] + [s[n]];
      FilterSnoc(s[..n], s[n], p);
      picks := FilterPositions(s[..n], p);
      if p(s[n]) {
        picks := picks + [n];
      }
    }
  }

  lemma {:induction false} FilterNonempty<T>(s: seq<T>, p: T -> bool)
    ensures Filter(s, p) != [] <==> exists x <- s :: p(x)
  {
    if s != [] {
      FilterNonempty(s[1..], p);
      assert s == [s[0]] + s[1..];
    }
  }

  lemma {:induction false} FilterWhole<T>(s: seq<T>, p: T -> bool)
    ensures |Filter(s, p)| <= |s|
    ensures Filter(s, p) == s <==> forall x <- s :: p(x)
  {
    if s != [] {
      FilterWhole(s[1..], p);
      assert s == [s[0]] + s[1..];
    }
  }

  lemma ConcatAssociative<T>(a: seq<T>, b: seq<T>, c: seq<T>)
    ensures (a + b) + c == a + (b + c)
  {
  }

  lemma DropOfTake<T>(s: seq<T>, n: nat, x: seq<T>, k: nat)
    requires k <= n <= |s|
    ensures (s[..n] + x)[k..] == s[k..][..n - k] + x
  {
  }

  lemma TakeNext<T>(s: seq<T>, k: nat)
    requires k < |s|
    ensures s[..k + 1] == s[..k] + [s[k]] && s[k..][1..] == s[k + 1..] && s[k..][0] == s[k]
  {
  }

  lemma ConcatTail<T>(a: seq<T>, b: seq<T>)
    requires a != []
    ensures (a + b)[1..] == a[1..] + b
  {
  }
}
