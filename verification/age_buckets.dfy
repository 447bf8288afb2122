/** The four age brackets of the `/api/age-distribution` handler (server.js)
    and what counting ages into them means. */
module AgeBuckets {

  datatype Bucket = Under20 | From20To40 | From40To60 | Over60

  /** The handler's if/else chain. Each bracket is a half-open interval, so
      20, 40 and 60 open the brackets "20 - 40", "40 - 60" and "Over 60". */
  function BucketOf(age: int): (b: Bucket)
    ensures b == Under20 <==> age < 20
    ensures b == From20To40 <==> 20 <= age < 40
    ensures b == From40To60 <==> 40 <= age < 60
    ensures b == Over60 <==> 60 <= age
  {
    if age < 20 then Under20
    else if age < 40 then From20To40
    else if age < 60 then From40To60
    else Over60
  }

  /** How many of `ages` fall into bracket `b`. */
  function CountIn(ages: seq<int>, b: Bucket): (c: nat)
    ensures c <= |ages|
  {
    if ages == [] then 0
    else CountIn(ages[..|ages| - 1], b) + (if BucketOf(ages[|ages| - 1]) == b then 1 else 0)
  }

  /** The response of the handler, before percentages: the total and the
      count of each bracket. */
  datatype Distribution = Distribution(
    total: nat, under20: nat, from20To40: nat, from40To60: nat, over60: nat)

  /** The four brackets partition the ages: their counts add up to the total. */
  lemma {:induction false} CountsPartition(ages: seq<int>)
    ensures CountIn(ages, Under20) + CountIn(ages, From20To40)
          + CountIn(ages, From40To60) + CountIn(ages, Over60) == |ages|
  {
    if ages != [] {
      CountsPartition(ages[..|ages| - 1]);
    }
  }

  lemma {:induction false} CountInAppend(a: seq<int>, c: seq<int>, b: Bucket)
    ensures CountIn(a + c, b) == CountIn(a, b) + CountIn(c, b)
  {
    if c == [] {
      assert a + c == a;
    } else {
      assert (a + c)[..|a + c| - 1] == a + c[..|c| - 1];
      CountInAppend(a, c[..|c| - 1], b);
    }
  }

  /** The counts do not depend on the order in which the ages arrive. */
  lemma {:induction false} CountInPermutation(a: seq<int>, c: seq<int>, b: Bucket)
    requires multiset(a) == multiset(c)
    ensures CountIn(a, b) == CountIn(c, b)
    decreases |a|
  {
    if a != [] {
      var x := a[|a| - 1];
      var init := a[..|a| - 1];
      assert a == init + [x];
      assert x in multiset(c);
      var k :| 0 <= k < |c| && c[k] == x;
      assert c == c[..k] + [x] + c[k + 1..];
      var rest := c[..k] + c[k + 1..];
      assert multiset(init) == multiset(rest) by {
        assert multiset(a) == multiset(init) + multiset{x};
        assert multiset(c) == multiset(c[..k]) + multiset{x} + multiset(c[k + 1..]);
        assert multiset(rest) == multiset(c[..k]) + multiset(c[k + 1..]);
        assert multiset(init) == multiset(a) - multiset{x};
        assert multiset(rest) == multiset(c) - multiset{x};
      }
      CountInPermutation(init, rest, b);
      CountInAppend(c[..k], [x], b);
      CountInAppend(c[..k] + [x], c[k + 1..], b);
      CountInAppend(c[..k], c[k + 1..], b);
      assert CountIn([x], b) == CountIn(init + [x], b) - CountIn(init, b) by {
        assert (init + [x])[..|init + [x]| - 1] == init;
        assert CountIn([x], b) == (if BucketOf(x) == b then 1 else 0) by {
          assert [x][..0] == [];
        }
      }
    }
  }
}
