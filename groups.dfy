/** pygame sprite groups, as duplicate-free sequences in insertion order.
    `Group.add` ignores a sprite already present and `Sprite.kill` removes it. */
module Groups {

  predicate Distinct<T(==)>(s: seq<T>) {
    forall i, j :: 0 <= i < j < |s| ==> s[i] != s[j]
  }

  /** In a group without repeats, the member at `i` is no other place's member. */
  lemma DistinctAt<T>(s: seq<T>, i: int)
    requires Distinct(s) && 0 <= i < |s|
    ensures forall k :: 0 <= k < |s| && k != i ==> s[k] != s[i]
  {
  }

  /** A group without repeats has none in its first `n` members either. */
  lemma DistinctPrefix<T>(s: seq<T>, n: nat)
    requires Distinct(s) && n <= |s|
    ensures Distinct(s[..n])
  {
    forall i, j | 0 <= i < j < n ensures s[..n][i] != s[..n][j] { assert s[..n][i] == s[i] && s[..n][j] == s[j]; }
  }

  /** `group.add(x)` */
  function Added<T(==)>(s: seq<T>, x: T): (r: seq<T>)
    ensures x in r && forall y :: y in s ==> y in r
    ensures forall y :: y in r ==> y in s || y == x
    ensures x !in s ==> |r| == |s| + 1 && r[..|s|] == s && r[|s|] == x
    ensures Distinct(s) ==> Distinct(r)
  {
    if x in s then s else s + [x]
  }

  /** `x.kill()`, seen from the group `s`: every other member stays, in order. */
  function Without<T(==)>(s: seq<T>, x: T): (r: seq<T>)
    ensures x !in r
    ensures forall y :: y in r ==> y in s
    ensures forall y :: y in s && y != x ==> y in r
    ensures |r| <= |s|
    ensures x !in s ==> r == s
    ensures Distinct(s) ==> Distinct(r)
    ensures Distinct(s) && x in s ==> |r| == |s| - 1
  {
    if s == [] then []
    else if s[0] == x then Without(s[1..], x)
    else
      var rest := Without(s[1..], x);
      DistinctCons(s[0], s[1..]);
      DistinctCons(s[0], rest);
      [s[0]] + rest
  }

  /** The members of `s` whose flag in `leave` is false, in order: what is
      left of a group once every member flagged in `leave` has been killed. */
  function Kept<T>(s: seq<T>, leave: seq<bool>): (r: seq<T>)
    requires |leave| == |s|
    ensures |r| <= |s|
    ensures forall y :: y in r ==> y in s
  {
    if s == [] then []
    else Kept(s[..|s| - 1], leave[..|s| - 1]) + (if leave[|s| - 1] then [] else [s[|s| - 1]])
  }

  /** How many of `flags` are set. */
  function Count(flags: seq<bool>): (n: nat)
    ensures n <= |flags|
    ensures n == 0 <==> forall k :: 0 <= k < |flags| ==> !flags[k]
  {
    if flags == [] then 0
    else Count(flags[..|flags| - 1]) + (if flags[|flags| - 1] then 1 else 0)
  }

  /** Setting one more flag adds one to the count; clearing one adds nothing. */
  lemma CountSnoc(flags: seq<bool>, f: bool)
    ensures Count(flags + [f]) == Count(flags) + (if f then 1 else 0)
  {
    assert (flags + [f])[..|flags|] == flags;
  }

  /** In a group without duplicates, a member stays exactly when it is not flagged. */
  lemma {:induction false} KeptMembers<T>(s: seq<T>, leave: seq<bool>)
    requires |leave| == |s| && Distinct(s)
    ensures Distinct(Kept(s, leave))
    ensures forall k :: 0 <= k < |s| ==> (s[k] in Kept(s, leave) <==> !leave[k])
  {
    if s != [] {
      var n := |s| - 1;
      var front, x := Kept(s[..n], leave[..n]), s[n];
      assert Kept(s, leave) == front + (if leave[n] then [] else [x]);
      DistinctPrefix(s, n);
      KeptMembers(s[..n], leave[..n]);
      DistinctAt(s, n);
      assert x !in s[..n];
      assert x !in front;
      DistinctSnoc(front, x);
      forall k | 0 <= k < n ensures s[k] in Kept(s, leave) <==> !leave[k] {
        assert s[..n][k] == s[k] && leave[..n][k] == leave[k];
      }
    }
  }

  /** Killing `s[i]` from the group, when the first `i` members have had
      their turn: the flag `gone` says whether it went. */
  lemma KeptStep<T>(s: seq<T>, leave: seq<bool>, i: nat, gone: bool)
    requires Distinct(s) && i < |s| && |leave| == i
    ensures var r := Kept(s[..i], leave) + s[i..];
            (if gone then Without(r, s[i]) else r) == Kept(s[..i + 1], leave + [gone]) + s[i + 1..]
  {
    Unrepeated(s, i);
    KeptStepAt(s, leave, i, gone);
  }

  /** `KeptStep` for a member that occurs nowhere else in `s`. */
  lemma KeptStepAt<T>(s: seq<T>, leave: seq<bool>, i: nat, gone: bool)
    requires i < |s| && |leave| == i && s[i] !in s[..i] && s[i] !in s[i + 1..]
    ensures var r := Kept(s[..i], leave) + s[i..];
            (if gone then Without(r, s[i]) else r) == Kept(s[..i + 1], leave + [gone]) + s[i + 1..]
  {
    var front, x, back := Kept(s[..i], leave), s[i], s[i + 1..];
    KeptNext(s, leave, i, gone);
    assert s[i..] == [x] + back;
    if gone {
      WithoutSplit(front, x, back);
      assert front + s[i..] == front + [x] + back;
    } else {
      assert front + s[i..] == (front + [x]) + back;
    }
  }

  /** `Kept` takes one more member of `s` into account. */
  lemma KeptNext<T>(s: seq<T>, leave: seq<bool>, i: nat, gone: bool)
    requires i < |s| && |leave| == i
    ensures Kept(s[..i + 1], leave + [gone]) == Kept(s[..i], leave) + (if gone then [] else [s[i]])
  {
    assert s[..i + 1][..i] == s[..i] && (leave + [gone])[..i] == leave;
  }

  /** A member of a group without repeats is neither before nor after its own place. */
  lemma Unrepeated<T>(s: seq<T>, i: nat)
    requires Distinct(s) && i < |s|
    ensures s[i] !in s[..i] && s[i] !in s[i + 1..]
  {
    forall k | 0 <= k < i ensures s[..i][k] != s[i] {
      assert s[..i][k] == s[k];
    }
    var back := s[i + 1..];
    forall k | 0 <= k < |back| ensures back[k] != s[i] {
      assert back[k] == s[i + 1 + k];
    }
  }

  lemma {:induction false} WithoutSplit<T>(a: seq<T>, x: T, b: seq<T>)
    requires x !in a && x !in b
    ensures Without(a + [x] + b, x) == a + b
  {
    if a == [] {
      assert a + [x] + b == [x] + b && ([x] + b)[1..] == b;
    } else {
      WithoutSplit(a[1..], x, b);
      assert (a + [x] + b)[1..] == a[1..] + [x] + b;
      assert a + b == [a[0]] + (a[1..] + b);
    }
  }

  lemma DistinctSnoc<T>(s: seq<T>, x: T)
    ensures Distinct(s + [x]) <==> x !in s && Distinct(s)
  {
    var r := s + [x];
    if x !in s && Distinct(s) {
      forall i, j | 0 <= i < j < |r| ensures r[i] != r[j] {
        if j == |s| { assert r[i] == s[i]; } else { assert r[i] == s[i] && r[j] == s[j]; }
      }
    }
    if Distinct(r) {
      forall i, j | 0 <= i < j < |s| ensures s[i] != s[j] { assert s[i] == r[i] && s[j] == r[j]; }
      forall k | 0 <= k < |s| ensures s[k] != x { assert r[k] == s[k] && r[|s|] == x; }
    }
  }

  lemma DistinctCons<T>(h: T, t: seq<T>)
    ensures Distinct([h] + t) <==> h !in t && Distinct(t)
  {
    var s := [h] + t;
    if h !in t && Distinct(t) {
      forall i, j | 0 <= i < j < |s| ensures s[i] != s[j] {
        if i > 0 { assert s[i] == t[i - 1] && s[j] == t[j - 1]; } else { assert s[j] == t[j - 1]; }
      }
    }
    if Distinct(s) {
      forall i, j | 0 <= i < j < |t| ensures t[i] != t[j] { assert t[i] == s[i + 1] && t[j] == s[j + 1]; }
      forall k | 0 <= k < |t| ensures t[k] != h { assert s[0] == h && s[k + 1] == t[k]; }
    }
  }
}
