/** Which names `_prepare_available_reddit_names` offers and which ones
    `assign_reddit_names` hands out (utils/stylesheet/stylesheet_image_mapper.py),
    as functions of the used names and the unnamed images' usage counts. */
module NameAllocation {
  import opened Wrappers
  import opened AlphaNames
  import opened Sequences

  /** The loop of `_prepare_available_reddit_names` over the numbers `k` down
      to 1, as the numbers whose names it lists paired with their floors,
      carrying the current floor and whether a name was listed since the
      floor last changed. An unused name is listed with the floor; a used name
      met after a listing moves the floor to its usage count. */
  function Listed(used: map<Option<string>, nat>, k: nat, floor: nat, update: bool): seq<(nat, nat)>
    decreases k
  {
    if k == 0 then []
    else if Some(AlphaName(k)) in used then
      Listed(used, k - 1, if update then used[Some(AlphaName(k))] else floor, false)
    else [(k, floor)] + Listed(used, k - 1, floor, true)
  }

  /** Every listed number lies in 1..`k` and has an unused name. */
  predicate AllFree(used: map<Option<string>, nat>, k: nat, r: seq<(nat, nat)>) {
    forall t :: 0 <= t < |r| ==> 1 <= r[t].0 <= k && Some(AlphaName(r[t].0)) !in used
  }

  /** Every number in 1..`k` with an unused name is listed. */
  predicate AllListed(used: map<Option<string>, nat>, k: nat, r: seq<(nat, nat)>) {
    forall j :: 1 <= j <= k && Some(AlphaName(j)) !in used ==> exists t :: 0 <= t < |r| && r[t].0 == j
  }

  /** Numbers are listed from the highest down, so none twice. */
  predicate Decreasing(r: seq<(nat, nat)>) {
    forall s, t :: 0 <= s < t < |r| ==> r[s].0 > r[t].0
  }

  lemma {:induction false} ListedUnused(used: map<Option<string>, nat>, k: nat, floor: nat, update: bool)
    ensures AllFree(used, k, Listed(used, k, floor, update))
    decreases k
  {
    if k > 0 {
      if Some(AlphaName(k)) in used {
        ListedUnused(used, k - 1, if update then used[Some(AlphaName(k))] else floor, false);
      } else {
        ListedUnused(used, k - 1, floor, true);
      }
    }
  }

  lemma {:induction false} ListedInOrder(used: map<Option<string>, nat>, k: nat, floor: nat, update: bool)
    ensures Decreasing(Listed(used, k, floor, update))
    decreases k
  {
    if k > 0 {
      if Some(AlphaName(k)) in used {
        ListedInOrder(used, k - 1, if update then used[Some(AlphaName(k))] else floor, false);
      } else {
        ListedUnused(used, k - 1, floor, true);
        ListedInOrder(used, k - 1, floor, true);
      }
    }
  }

  lemma {:induction false} ListedComplete(used: map<Option<string>, nat>, k: nat, floor: nat, update: bool)
    ensures AllListed(used, k, Listed(used, k, floor, update))
    decreases k
  {
    if k > 0 {
      if Some(AlphaName(k)) in used {
        ListedComplete(used, k - 1, if update then used[Some(AlphaName(k))] else floor, false);
      } else {
        var rest := Listed(used, k - 1, floor, true);
        ListedComplete(used, k - 1, floor, true);
        var r := Listed(used, k, floor, update);
        assert r == [(k, floor)] + rest;
        forall j | 1 <= j <= k && Some(AlphaName(j)) !in used
          ensures exists t :: 0 <= t < |r| && r[t].0 == j
        {
          if j == k {
            assert r[0].0 == j;
          } else {
            var t :| 0 <= t < |rest| && rest[t].0 == j;
            assert r[t + 1] == rest[t];
          }
        }
      }
    }
  }

  /** The floor of the first listed name is the starting one, unless a
      listing is pending and the first name met, that of `k`, is used; then
      it is that name's usage count. */
  lemma {:induction false} FirstFloor(used: map<Option<string>, nat>, k: nat, floor: nat, update: bool)
    ensures Listed(used, k, floor, update) != [] &&
            (Listed(used, k, floor, update)[0].0 == k || !update) ==>
      Listed(used, k, floor, update)[0].1 == floor
    ensures Listed(used, k, floor, update) != [] && Listed(used, k, floor, update)[0].0 != k && update ==>
      k > 0 && Some(AlphaName(k)) in used && Listed(used, k, floor, update)[0].1 == used[Some(AlphaName(k))]
    decreases k
  {
    if k > 0 && Some(AlphaName(k)) in used {
      var f := if update then used[Some(AlphaName(k))] else floor;
      FirstFloor(used, k - 1, f, false);
      ListedUnused(used, k - 1, f, false);
    }
  }

  /** Two consecutive listed numbers keep the floor when they are adjacent;
      otherwise the names between them are used and the floor becomes the
      usage count of the first one met, just below the earlier number. */
  predicate FloorStep(used: map<Option<string>, nat>, x: (nat, nat), y: (nat, nat)) {
    if y.0 + 1 == x.0 then y.1 == x.1
    else x.0 >= 2 && Some(AlphaName(x.0 - 1)) in used && y.1 == used[Some(AlphaName(x.0 - 1))]
  }

  predicate FloorSteps(used: map<Option<string>, nat>, r: seq<(nat, nat)>) {
    forall t :: 0 <= t < |r| - 1 ==> FloorStep(used, r[t], r[t + 1])
  }

  /** How the floors run: a floor differs from the previous one only at a used
      name met after a listing. */
  lemma {:induction false} NextFloor(used: map<Option<string>, nat>, k: nat, floor: nat, update: bool)
    ensures FloorSteps(used, Listed(used, k, floor, update))
    decreases k
  {
    if k > 0 {
      if Some(AlphaName(k)) in used {
        NextFloor(used, k - 1, if update then used[Some(AlphaName(k))] else floor, false);
      } else {
        var rest := Listed(used, k - 1, floor, true);
        NextFloor(used, k - 1, floor, true);
        var r := Listed(used, k, floor, update);
        assert r == [(k, floor)] + rest;
        if rest != [] {
          ListedUnused(used, k - 1, floor, true);
          FirstFloor(used, k - 1, floor, true);
          assert FloorStep(used, r[0], r[1]);
        }
        forall t | 1 <= t < |r| - 1 ensures FloorStep(used, r[t], r[t + 1]) {
          assert r[t] == rest[t - 1] && r[t + 1] == rest[t];
        }
      }
    }
  }

  /** Listed numbers as names with their floors. */
  function Named(ps: seq<(nat, nat)>): (r: seq<(string, nat)>)
    ensures |r| == |ps|
    decreases |ps|
  {
    if ps == [] then [] else [(AlphaName(ps[0].0), ps[0].1)] + Named(ps[1..])
  }

  lemma {:induction false} NamedAt(ps: seq<(nat, nat)>, t: nat)
    requires t < |ps|
    ensures Named(ps)[t] == (AlphaName(ps[t].0), ps[t].1)
    decreases |ps|
  {
    if t > 0 {
      NamedAt(ps[1..], t - 1);
    }
  }

  /** The list `_prepare_available_reddit_names` returns for `count` names. */
  function Available(used: map<Option<string>, nat>, count: nat): seq<(string, nat)> {
    Named(Listed(used, count, 0, false))
  }

  /** The list the source builds starts from floor 0 with no listing pending,
      so its first floor is 0. */
  lemma FirstFloorIsZero(used: map<Option<string>, nat>, count: nat)
    ensures Available(used, count) != [] ==> Available(used, count)[0].1 == 0
  {
    FirstFloor(used, count, 0, false);
    if Available(used, count) != [] {
      NamedAt(Listed(used, count, 0, false), 0);
    }
  }

  /** Names are pairwise distinct and never get shorter. */
  predicate ShortestFirst(names: seq<string>) {
    forall s, t :: 0 <= s < t < |names| ==> names[s] != names[t] && |names[s]| <= |names[t]|
  }

  /** Candidate names are pairwise distinct and never get shorter. */
  predicate Ordered(c: seq<(string, nat)>) {
    forall s, t :: 0 <= s < t < |c| ==> c[s].0 != c[t].0 && |c[s].0| <= |c[t].0|
  }

  /** The `t`-th available name is that of the `t`-th listed number, which lies
      in 1..`count`, with the floor listed there; it is unused. */
  lemma AvailableAt(used: map<Option<string>, nat>, count: nat, t: nat)
    requires t < |Available(used, count)|
    ensures 1 <= Listed(used, count, 0, false)[t].0 <= count
    ensures Available(used, count)[t] ==
      (AlphaName(Listed(used, count, 0, false)[t].0), Listed(used, count, 0, false)[t].1)
    ensures Some(Available(used, count)[t].0) !in used
  {
    ListedUnused(used, count, 0, false);
    NamedAt(Listed(used, count, 0, false), t);
  }

  /** `name` is the unused name of a number in 1..`count`. */
  predicate FreeName(used: map<Option<string>, nat>, count: nat, name: string) {
    Some(name) !in used && exists j :: 1 <= j <= count && name == AlphaName(j)
  }

  /** Every available name is the unused name of a number in 1..`count`. */
  lemma AvailableUnused(used: map<Option<string>, nat>, count: nat)
    ensures forall t :: 0 <= t < |Available(used, count)| ==> FreeName(used, count, Available(used, count)[t].0)
  {
    forall t | 0 <= t < |Available(used, count)| ensures FreeName(used, count, Available(used, count)[t].0) {
      AvailableAt(used, count, t);
    }
  }

  /** The unused name of every number in 1..`count` is available. */
  lemma AvailableComplete(used: map<Option<string>, nat>, count: nat)
    ensures forall j :: 1 <= j <= count && Some(AlphaName(j)) !in used ==>
      exists t :: 0 <= t < |Available(used, count)| && Available(used, count)[t].0 == AlphaName(j)
  {
    var ps := Listed(used, count, 0, false);
    ListedComplete(used, count, 0, false);
    forall j | 1 <= j <= count && Some(AlphaName(j)) !in used
      ensures exists t :: 0 <= t < |Available(used, count)| && Available(used, count)[t].0 == AlphaName(j)
    {
      var t :| 0 <= t < |ps| && ps[t].0 == j;
      AvailableAt(used, count, t);
    }
  }

  /** A larger number has a name of larger value, not shorter. */
  lemma LargerName(m: nat, n: nat)
    requires m > n
    ensures AlphaValue(AlphaName(m)) > AlphaValue(AlphaName(n))
    ensures AlphaName(m) != AlphaName(n) && |AlphaName(m)| >= |AlphaName(n)|
  {
    AlphaValueOfName(m);
    AlphaValueOfName(n);
    AlphaNameLengthMonotone(n, m);
  }

  /** The available names at positions `s < t` stand for a higher and a
      lower number, so the later one is distinct and no longer. */
  lemma AvailablePair(used: map<Option<string>, nat>, count: nat, s: nat, t: nat)
    requires s < t < |Available(used, count)|
    ensures AlphaValue(Available(used, count)[s].0) > AlphaValue(Available(used, count)[t].0)
    ensures Available(used, count)[s].0 != Available(used, count)[t].0
    ensures |Available(used, count)[s].0| >= |Available(used, count)[t].0|
  {
    var ps := Listed(used, count, 0, false);
    ListedInOrder(used, count, 0, false);
    AvailableAt(used, count, s);
    AvailableAt(used, count, t);
    LargerName(ps[s].0, ps[t].0);
  }

  /** The available names stand for numbers from the highest to the lowest. */
  lemma AvailableDescending(used: map<Option<string>, nat>, count: nat)
    ensures forall s, t :: 0 <= s < t < |Available(used, count)| ==>
      AlphaValue(Available(used, count)[s].0) > AlphaValue(Available(used, count)[t].0)
  {
    forall s, t | 0 <= s < t < |Available(used, count)|
      ensures AlphaValue(Available(used, count)[s].0) > AlphaValue(Available(used, count)[t].0)
    {
      AvailablePair(used, count, s, t);
    }
  }

  /** Read from the end, as the assignment tries them, the available names are
      pairwise distinct and shortest first. */
  lemma AvailableShortestLast(used: map<Option<string>, nat>, count: nat)
    ensures Ordered(Reversed(Available(used, count)))
  {
    var r := Available(used, count);
    var asc := Reversed(r);
    forall s, t | 0 <= s < t < |asc| ensures asc[s].0 != asc[t].0 && |asc[s].0| <= |asc[t].0| {
      AvailablePair(used, count, |r| - 1 - t, |r| - 1 - s);
    }
  }

  function Reversed<T>(s: seq<T>): (r: seq<T>)
    ensures |r| == |s| && forall i :: 0 <= i < |s| ==> r[i] == s[|s| - 1 - i]
    decreases |s|
  {
    if s == [] then [] else Reversed(s[1..]) + [s[0]]
  }

  /** The names `assign_reddit_names` hands out, in the order of the unnamed
      images (whose usage counts are `usages`): candidates are tried in order;
      one is skipped, costing one extra name, when extra names remain (any
      non-zero count, negative included) and its floor exceeds the next
      image's usage; otherwise it goes to that image. */
  function Assigned(candidates: seq<(string, nat)>, usages: seq<nat>, extra: int): (r: seq<string>)
    ensures |r| <= |usages| && |r| <= |candidates|
    decreases |candidates|
  {
    if candidates == [] || usages == [] then []
    else if extra != 0 && candidates[0].1 > usages[0] then Assigned(candidates[1..], usages, extra - 1)
    else [candidates[0].0] + Assigned(candidates[1..], usages[1..], extra)
  }

  /** `name` comes at or after position `i` of the candidates. */
  predicate From(c: seq<(string, nat)>, i: nat, name: string) {
    exists t :: i <= t < |c| && c[t].0 == name
  }
  /** Every handed-out name is a candidate. */
  lemma {:induction false} AssignedCandidates(c: seq<(string, nat)>, usages: seq<nat>, extra: int)
    ensures forall i :: 0 <= i < |Assigned(c, usages, extra)| ==> From(c, 0, Assigned(c, usages, extra)[i])
    decreases |c|
  {
    if c != [] && usages != [] {
      var r := Assigned(c, usages, extra);
      if extra != 0 && c[0].1 > usages[0] {
        AssignedCandidates(c[1..], usages, extra - 1);
        assert r == Assigned(c[1..], usages, extra - 1);
        forall i | 0 <= i < |r| ensures From(c, 0, r[i]) {
          assert From(c[1..], 0, r[i]);
          var t :| 0 <= t < |c[1..]| && c[1..][t].0 == r[i];
          assert c[t + 1] == c[1..][t];
        }
      } else {
        AssignedCandidates(c[1..], usages[1..], extra);
        var tail := Assigned(c[1..], usages[1..], extra);
        assert r == [c[0].0] + tail;
        forall i | 0 <= i < |r| ensures From(c, 0, r[i]) {
          if i == 0 {
            assert c[0].0 == r[0];
          } else {
            assert r[i] == tail[i - 1] && From(c[1..], 0, tail[i - 1]);
            var t :| 0 <= t < |c[1..]| && c[1..][t].0 == r[i];
            assert c[t + 1] == c[1..][t];
          }
        }
      }
    }
  }
  /** One step of the assignment from positions `i` of the candidates and
      `k` of the usages. */
  lemma AssignedNext(c: seq<(string, nat)>, usages: seq<nat>, extra: int, i: nat, k: nat)
    requires i < |c| && k < |usages|
    ensures Assigned(c[i..], usages[k..], extra) ==
      if extra != 0 && c[i].1 > usages[k] then Assigned(c[i + 1..], usages[k..], extra - 1)
      else [c[i].0] + Assigned(c[i + 1..], usages[k + 1..], extra)
  {
    assert c[i..][1..] == c[i + 1..] && usages[k..][1..] == usages[k + 1..];
  }

  /** One step of an assignment under way: `all` is what was handed out so
      far followed by what the rest hands out; the step either skips the
      candidate or hands it to the next image. */
  lemma AssignedStep(all: seq<string>, c: seq<(string, nat)>, usages: seq<nat>, extra: int, i: nat, k: nat,
                     done: seq<string>)
    requires i < |c| && k < |usages|
    requires all == done + Assigned(c[i..], usages[k..], extra)
    ensures extra != 0 && c[i].1 > usages[k] ==> all == done + Assigned(c[i + 1..], usages[k..], extra - 1)
    ensures !(extra != 0 && c[i].1 > usages[k]) ==>
      all == (done + [c[i].0]) + Assigned(c[i + 1..], usages[k + 1..], extra)
  {
    AssignedNext(c, usages, extra, i, k);
    AppendAssociative(done, [c[i].0], Assigned(c[i + 1..], usages[k + 1..], extra));
  }

  /** Distinct, shortest-first candidates give distinct, shortest-first names. */
  lemma {:induction false} AssignedInOrder(c: seq<(string, nat)>, usages: seq<nat>, extra: int)
    requires Ordered(c)
    ensures ShortestFirst(Assigned(c, usages, extra))
    decreases |c|
  {
    if c != [] && usages != [] {
      var r := Assigned(c, usages, extra);
      assert Ordered(c[1..]) by {
        forall s, t | 0 <= s < t < |c[1..]| ensures c[1..][s].0 != c[1..][t].0 && |c[1..][s].0| <= |c[1..][t].0| {
          assert c[1..][s] == c[s + 1] && c[1..][t] == c[t + 1];
        }
      }
      if extra != 0 && c[0].1 > usages[0] {
        AssignedInOrder(c[1..], usages, extra - 1);
        assert r == Assigned(c[1..], usages, extra - 1);
      } else {
        AssignedInOrder(c[1..], usages[1..], extra);
        AssignedCandidates(c[1..], usages[1..], extra);
        var tail := Assigned(c[1..], usages[1..], extra);
        assert r == [c[0].0] + tail;
        forall j | 0 < j < |r| ensures r[0] != r[j] && |r[0]| <= |r[j]| {
          assert r[j] == tail[j - 1] && From(c[1..], 0, tail[j - 1]);
          var t :| 0 <= t < |c[1..]| && c[1..][t].0 == tail[j - 1];
          assert c[t + 1] == c[1..][t];
        }
        forall i, j | 0 <= i < j < |r| ensures r[i] != r[j] && |r[i]| <= |r[j]| {
          if i > 0 { assert r[i] == tail[i - 1] && r[j] == tail[j - 1]; }
        }
      }
    }
  }

  /** With exactly as many extra names as candidates beyond the images, and no
      fewer candidates than images, every image gets a name. */
  lemma {:induction false} AssignedAll(candidates: seq<(string, nat)>, usages: seq<nat>, extra: int)
    requires extra == |candidates| - |usages| >= 0
    ensures |Assigned(candidates, usages, extra)| == |usages|
    decreases |candidates|
  {
    if candidates != [] && usages != [] {
      if extra != 0 && candidates[0].1 > usages[0] {
        AssignedAll(candidates[1..], usages, extra - 1);
      } else {
        AssignedAll(candidates[1..], usages[1..], extra);
      }
    }
  }

  /** The names `assign_reddit_names` hands out to images with these usage
      counts. */
  function Assignment(used: map<Option<string>, nat>, count: nat, usages: seq<nat>): (r: seq<string>)
    ensures |r| <= |usages| && |r| <= |Available(used, count)|
  {
    Assigned(Reversed(Available(used, count)), usages, |Available(used, count)| - |usages|)
  }

  /** The names `assign_reddit_names` hands out are unused names of numbers
      in 1..`count`. */
  lemma AssignmentFree(used: map<Option<string>, nat>, count: nat, usages: seq<nat>)
    ensures forall i :: 0 <= i < |Assignment(used, count, usages)| ==>
      FreeName(used, count, Assignment(used, count, usages)[i])
  {
    var available := Available(used, count);
    var asc := Reversed(available);
    var extra := |available| - |usages|;
    AvailableUnused(used, count);
    AssignedCandidates(asc, usages, extra);
    var r := Assigned(asc, usages, extra);
    forall i | 0 <= i < |r| ensures FreeName(used, count, r[i]) {
      assert From(asc, 0, r[i]);
      var t :| 0 <= t < |asc| && asc[t].0 == r[i];
      assert asc[t] == available[|available| - 1 - t];
    }
  }

  /** The names handed out are pairwise distinct and shortest first. */
  lemma AssignmentInOrder(used: map<Option<string>, nat>, count: nat, usages: seq<nat>)
    ensures ShortestFirst(Assignment(used, count, usages))
  {
    AvailableShortestLast(used, count);
    AssignedInOrder(Reversed(Available(used, count)), usages, |Available(used, count)| - |usages|);
  }

  /** When there are enough available names every unnamed image gets one;
      otherwise the images beyond the available names stay unnamed. */
  lemma AssignmentCount(used: map<Option<string>, nat>, count: nat, usages: seq<nat>)
    ensures |Available(used, count)| >= |usages| ==> |Assignment(used, count, usages)| == |usages|
  {
    var extra := |Available(used, count)| - |usages|;
    if extra >= 0 {
      AssignedAll(Reversed(Available(used, count)), usages, extra);
    }
  }
}
