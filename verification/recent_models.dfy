/** The most-recently-used list of model keys: the key just used goes to
    the front, an earlier occurrence of it is dropped, and at most five
    keys are kept. */
module RecentModels {
  import opened Common

  const MaxRecent := 5

  /** `list.filter(k => k !== key)` */
  function Without(xs: seq<string>, key: string): (r: seq<string>)
    ensures |r| <= |xs|
    ensures forall x :: x in r <==> x in xs && x != key
  {
    if xs == [] then [] else (if xs[0] == key then [] else [xs[0]]) + Without(xs[1..], key)
  }

  /** `list.slice(0, n)` */
  function Take(xs: seq<string>, n: nat): (r: seq<string>)
    ensures |r| <= n && |r| <= |xs| && r == xs[..|r|]
    ensures |xs| <= n ==> r == xs
  {
    if |xs| <= n then xs else xs[..n]
  }

  /** `addRecentModel`: the list it writes back, given the list it read
      (`None` when nothing was stored), or `None` when it writes nothing. */
  function AddRecent(stored: Option<seq<string>>, key: string): (r: Option<seq<string>>)
    ensures r.None? <==> key == ""
    ensures r.Some? ==> |r.value| <= MaxRecent && r.value != [] && r.value[0] == key && key !in r.value[1..]
    ensures r.Some? ==> var w := Without(stored.GetOr([]), key);
      r.value[1..] == w[..Min(MaxRecent - 1, |w|)]
  {
    if key == "" then None
    else
      var w := Without(stored.GetOr([]), key);
      var t := Take(w, MaxRecent - 1);
      TakeCons(key, w);
      assert key !in t by {
        assert t == w[..|t|];
        assert key !in w;
      }
      assert ([key] + t)[1..] == t;
      Some(Take([key] + w, MaxRecent))
  }

  /** Filtering a concatenation filters each part: the keys kept stay in order. */
  lemma {:induction false} WithoutAppend(a: seq<string>, b: seq<string>, key: string)
    ensures Without(a + b, key) == Without(a, key) + Without(b, key)
  {
    if a != [] {
      assert a == [a[0]] + a[1..];
      assert a + b == [a[0]] + (a[1..] + b);
      WithoutCons(a[0], a[1..], key);
      WithoutCons(a[0], a[1..] + b, key);
      WithoutAppend(a[1..], b, key);
      var h := if a[0] == key then [] else [a[0]];
      SeqAssoc(h, Without(a[1..], key), Without(b, key));
    } else {
      assert a + b == b;
    }
  }

  lemma WithoutCons(h: string, t: seq<string>, key: string)
    ensures Without([h] + t, key) == (if h == key then [] else [h]) + Without(t, key)
  {
    assert ([h] + t)[0] == h;
    assert ([h] + t)[1..] == t;
  }

  lemma TakeCons(key: string, w: seq<string>)
    ensures Take([key] + w, MaxRecent) == [key] + Take(w, MaxRecent - 1)
  {
    if |w| >= MaxRecent {
      assert ([key] + w)[..MaxRecent] == [key] + w[..MaxRecent - 1];
    }
  }

  /** `a` is `b` with some elements left out. */
  predicate Subseq(a: seq<string>, b: seq<string>)
    decreases |b|
  {
    a == [] || (b != [] && if a[0] == b[0] then Subseq(a[1..], b[1..]) else Subseq(a, b[1..]))
  }

  lemma {:induction false} WithoutSubseq(xs: seq<string>, key: string)
    ensures Subseq(Without(xs, key), xs)
  {
    if xs != [] {
      WithoutSubseq(xs[1..], key);
      if xs[0] != key {
        assert Without(xs, key) == [xs[0]] + Without(xs[1..], key);
        assert ([xs[0]] + Without(xs[1..], key))[1..] == Without(xs[1..], key);
      } else {
        assert Without(xs, key) == Without(xs[1..], key);
        assert Without(xs, key) != [] ==> Without(xs, key)[0] in Without(xs, key);
      }
    }
  }

  lemma {:induction false} PrefixSubseq(a: seq<string>, b: seq<string>, n: nat)
    requires Subseq(a, b) && n <= |a|
    ensures Subseq(a[..n], b)
    decreases |b|
  {
    if n > 0 {
      if a[0] == b[0] {
        PrefixSubseq(a[1..], b[1..], n - 1);
        assert a[..n][1..] == a[1..][..n - 1];
      } else {
        PrefixSubseq(a, b[1..], n);
      }
    }
  }

  /** The keys after the new head are earlier keys in their earlier order. */
  lemma OthersKeepOrder(stored: Option<seq<string>>, key: string)
    requires key != ""
    ensures Subseq(AddRecent(stored, key).value[1..], stored.GetOr([]))
  {
    var w := Without(stored.GetOr([]), key);
    TakeCons(key, w);
    var t := Take(w, MaxRecent - 1);
    assert AddRecent(stored, key).value[1..] == t by {
      assert AddRecent(stored, key).value == [key] + t;
    }
    WithoutSubseq(stored.GetOr([]), key);
    PrefixSubseq(w, stored.GetOr([]), |t|);
  }

  lemma {:induction false} WithoutAbsent(xs: seq<string>, key: string)
    requires key !in xs
    ensures Without(xs, key) == xs
  {
    if xs != [] {
      WithoutAbsent(xs[1..], key);
      assert xs == [xs[0]] + xs[1..];
    }
  }

  /** Using the model that is already at the front leaves the list as it is. */
  lemma AddRecentIdempotent(stored: Option<seq<string>>, key: string)
    requires key != ""
    ensures AddRecent(AddRecent(stored, key), key) == AddRecent(stored, key)
  {
    var r := AddRecent(stored, key).value;
    WithoutAbsent(r[1..], key);
    assert r == [r[0]] + r[1..];
    assert Without(r, key) == r[1..];
  }

  /** Until the cap is reached no earlier key is lost. */
  lemma NothingDroppedBelowCap(stored: Option<seq<string>>, key: string, x: string)
    requires key != "" && |stored.GetOr([])| < MaxRecent
    requires x in stored.GetOr([])
    ensures x in AddRecent(stored, key).value
  {
    var w := Without(stored.GetOr([]), key);
    TakeCons(key, w);
    if x != key {
      assert x in w;
    }
  }

  predicate NoDuplicates(xs: seq<string>) {
    forall i, j :: 0 <= i < j < |xs| ==> xs[i] != xs[j]
  }

  lemma {:induction false} WithoutNoDuplicates(xs: seq<string>, key: string)
    requires NoDuplicates(xs)
    ensures NoDuplicates(Without(xs, key))
  {
    if xs != [] {
      assert NoDuplicates(xs[1..]) by {
        forall i, j | 0 <= i < j < |xs[1..]| ensures xs[1..][i] != xs[1..][j] {
          assert xs[1..][i] == xs[i + 1] && xs[1..][j] == xs[j + 1];
        }
      }
      WithoutNoDuplicates(xs[1..], key);
      var rest := Without(xs[1..], key);
      if xs[0] != key {
        assert xs[0] !in rest by {
          assert xs[0] !in xs[1..];
        }
        assert Without(xs, key) == [xs[0]] + rest;
      }
    }
  }

  /** A list without repeats stays without repeats. */
  lemma AddRecentNoDuplicates(stored: Option<seq<string>>, key: string)
    requires key != "" && NoDuplicates(stored.GetOr([]))
    ensures NoDuplicates(AddRecent(stored, key).value)
  {
    var w := Without(stored.GetOr([]), key);
    WithoutNoDuplicates(stored.GetOr([]), key);
    TakeCons(key, w);
    var r := AddRecent(stored, key).value;
    assert r == [key] + w[..|r| - 1];
    forall i, j | 0 <= i < j < |r| ensures r[i] != r[j] {
      if i > 0 {
        assert r[i] == w[i - 1] && r[j] == w[j - 1];
      } else {
        assert r[j] in r[1..];
      }
    }
  }
}
