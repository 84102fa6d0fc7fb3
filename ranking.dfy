/**
 * The ranked-list builder (`test` in base/kggraph_recommender.py): for each
 * test user, look the user up, take that user's score row, mask the items the
 * user already rated, ask top-K selection for `max_N` ids, and zip the item
 * names of those ids with their scores into `rec_list[user]`.
 */
module Ranking {
  import opened Outcomes
  import opened Lookup
  import opened Masking

  /** One user's recommendations: (item name, score) pairs. */
  type Ranked = seq<(string, int)>

  /**
   * What one evaluation pass reads. The embedding product and the top-K
   * routine are given, not computed: `scoreOf(uid)` stands for
   * `user_emb[uid] @ item_emb.T`, and `findKLargest` for
   * util/algorithm.find_k_largest, whose code is not part of this model.
   */
  datatype Evaluation = Evaluation(
    users: seq<string>,                                   // list(data_kg.userent.keys())
    items: seq<string>,                                   // list(data_kg.itement.keys())
    scoreOf: nat -> seq<int>,                             // one user's score row
    ratedOf: string -> seq<string>,                       // the rated list of data.user_rated(user)
    findKLargest: (int, seq<int>) -> (seq<nat>, seq<int>),
    maxN: int)

  /** `[lst_items[iid] for iid in ids]`: fails at the first id past the end of the item list. */
  function ItemNames(items: seq<string>, ids: seq<nat>): (r: Result<seq<string>>)
    ensures r.Ok? <==> forall j :: 0 <= j < |ids| ==> ids[j] < |items|
    ensures r.Ok? ==> |r.value| == |ids| && forall j :: 0 <= j < |ids| ==> r.value[j] == items[ids[j]]
  {
    if ids == [] then Ok([])
    else if ids[0] >= |items| then Err(IndexOutOfRange(ids[0]))
    else
      match ItemNames(items, ids[1..])
      case Err(f) => Err(f)
      case Ok(names) => Ok([items[ids[0]]] + names)
  }

  /** Python's zip: pairs up the two lists and stops at the end of the shorter. */
  function Zip<A, B>(xs: seq<A>, ys: seq<B>): (r: seq<(A, B)>)
    ensures |r| == if |xs| <= |ys| then |xs| else |ys|
    ensures forall j :: 0 <= j < |r| ==> r[j] == (xs[j], ys[j])
  {
    if xs == [] || ys == [] then [] else [(xs[0], ys[0])] + Zip(xs[1..], ys[1..])
  }

  /**
   * The user's masked candidate scores, or the fault that the lookups raise
   * first: built exactly when the user is known and every rated item can be
   * looked up and written, and then as long as the user's score row.
   */
  function Candidates(ev: Evaluation, user: string): (r: Result<seq<int>>)
    ensures user !in ev.users ==> r == Err(UnknownUser(user))
    ensures r.Ok? <==> user in ev.users && Maskable(|ev.scoreOf(IndexOf(ev.users, user).value)|, ev.items, ev.ratedOf(user))
    ensures r.Ok? ==> |r.value| == |ev.scoreOf(IndexOf(ev.users, user).value)|
  {
    match IndexOf(ev.users, user)
    case None => Err(UnknownUser(user))
    case Some(uid) =>
      MaskAllSucceeds(ev.scoreOf(uid), ev.items, ev.ratedOf(user));
      MaskAll(ev.scoreOf(uid), ev.items, ev.ratedOf(user))
  }

  /**
   * `rec_list[user]`, or the fault that building it raises: an unknown user
   * fails with its own fault, and a built list is no longer than the ids
   * top-K returned.
   */
  function RankUser(ev: Evaluation, user: string): (r: Result<Ranked>)
    ensures user !in ev.users ==> r == Err(UnknownUser(user))
    ensures r.Ok? ==> user in ev.users && Candidates(ev, user).Ok?
    ensures r.Ok? ==> |r.value| <= |ev.findKLargest(ev.maxN, Candidates(ev, user).value).0|
  {
    match Candidates(ev, user)
    case Err(f) => Err(f)
    case Ok(c) =>
      var sel := ev.findKLargest(ev.maxN, c);
      match ItemNames(ev.items, sel.0)
      case Err(f) => Err(f)
      case Ok(names) => Ok(Zip(names, sel.1))
  }

  /**
   * The loop over the test users, from `acc` on; the first fault ends the
   * pass. A completed pass keeps every entry's key, and a fault is the one
   * some test user's list raises.
   */
  function RecListFrom(ev: Evaluation, users: seq<string>, acc: map<string, Ranked>): (r: Result<map<string, Ranked>>)
    ensures r.Ok? ==> acc.Keys <= r.value.Keys
    ensures r.Err? ==> exists i :: 0 <= i < |users| && RankUser(ev, users[i]) == Err(r.fault)
    decreases |users|
  {
    if users == [] then Ok(acc)
    else
      match RankUser(ev, users[0])
      case Err(f) => Err(f)
      case Ok(ranked) =>
        var rest := RecListFrom(ev, users[1..], acc[users[0] := ranked]);
        assert rest.Err? ==> exists i :: 1 <= i < |users| && RankUser(ev, users[i]) == Err(rest.fault) by {
          if rest.Err? {
            var i :| 0 <= i < |users[1..]| && RankUser(ev, users[1..][i]) == Err(rest.fault);
            assert users[i + 1] == users[1..][i];
          }
        }
        rest
  }

  /**
   * The whole `rec_list` for the test users, in their order: built exactly
   * when every test user's list can be, and then keyed by the test users.
   */
  function RecList(ev: Evaluation, testUsers: seq<string>): (r: Result<map<string, Ranked>>)
    ensures r.Ok? <==> forall u :: u in testUsers ==> RankUser(ev, u).Ok?
    ensures r.Ok? ==> r.value.Keys == set u | u in testUsers
  {
    RecListFromSucceeds(ev, testUsers, map[]);
    var r := RecListFrom(ev, testUsers, map[]);
    if r.Ok? then RecListFromShape(ev, testUsers, map[]); r else r
  }

  /**
   * `test` as written: after the loop, `process_bar(user_count, user_count)`
   * computes `float(num) / total`, which raises ZeroDivisionError when the
   * test set is empty. `RecList` is the intended behaviour without that fault.
   */
  function RecListAsWritten(ev: Evaluation, testUsers: seq<string>): (r: Result<map<string, Ranked>>)
    ensures RecList(ev, testUsers).Err? ==> r == RecList(ev, testUsers)
    ensures |testUsers| > 0 ==> r == RecList(ev, testUsers)
  {
    match RecList(ev, testUsers)
    case Err(f) => Err(f)
    case Ok(m) => if |testUsers| == 0 then Err(EmptyProgress) else Ok(m)
  }

  /** The discrepancy: an empty test set fails as written, though the intended result is the empty `rec_list`. */
  lemma EmptyTestSetFailsAsWritten(ev: Evaluation)
    ensures RecListAsWritten(ev, []) == Err(EmptyProgress)
    ensures RecList(ev, []) == Ok(map[])
  {
  }

  /**
   * One iteration of the loop over the test users: the candidate array is a
   * fresh array holding the user's scores, masked in place.
   */
  method RecommendFor(ev: Evaluation, user: string) returns (r: Result<Ranked>)
    ensures r == RankUser(ev, user)
  {
    var uid := IndexOf(ev.users, user);
    if uid.None? {
      return Err(UnknownUser(user));
    }
    var row := ev.scoreOf(uid.value);
    var candidates := new int[|row|](i requires 0 <= i < |row| => row[i]);
    assert candidates[..] == row;
    var masked := MaskRated(candidates, ev.items, ev.ratedOf(user));
    if masked.Fail? {
      return Err(masked.fault);
    }
    var sel := ev.findKLargest(ev.maxN, candidates[..]);
    var names := ItemNames(ev.items, sel.0);
    if names.Err? {
      return Err(names.fault);
    }
    r := Ok(Zip(names.value, sel.1));
  }

  /** The module-level `test`: fills `rec_list` user by user. */
  method Test(ev: Evaluation, testUsers: seq<string>) returns (r: Result<map<string, Ranked>>)
    ensures r == RecList(ev, testUsers)
  {
    var recList: map<string, Ranked> := map[];
    var i := 0;
    while i < |testUsers|
      invariant 0 <= i <= |testUsers|
      invariant RecList(ev, testUsers) == RecListFrom(ev, testUsers[i..], recList)
    {
      assert testUsers[i..][0] == testUsers[i] && testUsers[i..][1..] == testUsers[i + 1..];
      var ranked := RecommendFor(ev, testUsers[i]);
      if ranked.Err? {
        return Err(ranked.fault);
      }
      recList := recList[testUsers[i] := ranked.value];
      i := i + 1;
    }
    assert testUsers[i..] == [];
    r := Ok(recList);
  }

  /**
   * Shape of the loop's result: the keys are the accumulator's and the test
   * users', every test user maps to its own ranked list, and entries for
   * other users are kept.
   */
  lemma {:induction false} RecListFromShape(ev: Evaluation, users: seq<string>, acc: map<string, Ranked>)
    requires RecListFrom(ev, users, acc).Ok?
    ensures var m := RecListFrom(ev, users, acc).value;
      && m.Keys == acc.Keys + (set u | u in users)
      && (forall u :: u in users ==> RankUser(ev, u) == Ok(m[u]))
      && (forall u :: u in acc && u !in users ==> m[u] == acc[u])
    decreases |users|
  {
    if users != [] {
      var ranked := RankUser(ev, users[0]).value;
      RecListFromShape(ev, users[1..], acc[users[0] := ranked]);
      assert forall u :: u in users <==> u == users[0] || u in users[1..];
    }
  }

  /** The pass completes exactly when every test user's list can be built. */
  lemma {:induction false} RecListFromSucceeds(ev: Evaluation, users: seq<string>, acc: map<string, Ranked>)
    ensures RecListFrom(ev, users, acc).Ok? <==> forall u :: u in users ==> RankUser(ev, u).Ok?
    decreases |users|
  {
    if users != [] {
      if RankUser(ev, users[0]).Ok? {
        RecListFromSucceeds(ev, users[1..], acc[users[0] := RankUser(ev, users[0]).value]);
        assert forall u :: u in users <==> u == users[0] || u in users[1..];
      }
    }
  }

  /** The keys of `rec_list` are exactly the test users, each with its own ranked list. */
  lemma RecListShape(ev: Evaluation, testUsers: seq<string>)
    requires RecList(ev, testUsers).Ok?
    ensures RecList(ev, testUsers).value.Keys == set u | u in testUsers
    ensures forall u :: u in testUsers ==> RankUser(ev, u) == Ok(RecList(ev, testUsers).value[u])
  {
    RecListFromShape(ev, testUsers, map[]);
  }

  /** A test user missing from the user list makes the whole pass fail. */
  lemma UnknownUserFails(ev: Evaluation, testUsers: seq<string>, user: string)
    requires user in testUsers && user !in ev.users
    ensures RankUser(ev, user) == Err(UnknownUser(user))
    ensures RecList(ev, testUsers).Err?
  {
    RecListFromSucceeds(ev, testUsers, map[]);
  }

  /** A rated item missing from the item list makes the whole pass fail. */
  lemma UnknownRatedItemFails(ev: Evaluation, testUsers: seq<string>, user: string, item: string)
    requires user in testUsers && item in ev.ratedOf(user) && item !in ev.items
    ensures RankUser(ev, user).Err?
    ensures RecList(ev, testUsers).Err?
  {
    var uid := IndexOf(ev.users, user);
    if uid.Some? {
      UnknownItemFails(ev.scoreOf(uid.value), ev.items, ev.ratedOf(user), item);
    }
    RecListFromSucceeds(ev, testUsers, map[]);
  }

  /**
   * `rec_list[user]` is as long as the shorter of the two lists top-K returns,
   * and its j-th pair is (lst_items[ids[j]], scores[j]).
   */
  lemma RankUserPairs(ev: Evaluation, user: string)
    requires RankUser(ev, user).Ok?
    ensures Candidates(ev, user).Ok?
    ensures var l := RankUser(ev, user).value;
      var sel := ev.findKLargest(ev.maxN, Candidates(ev, user).value);
      && |l| == (if |sel.0| <= |sel.1| then |sel.0| else |sel.1|)
      && forall j :: 0 <= j < |l| ==> sel.0[j] < |ev.items| && l[j] == (ev.items[sel.0[j]], sel.1[j])
  {
  }

  /** What find_k_largest promises: as many scores as ids, each id a valid index, each score the one at that id. */
  ghost predicate FindsValidIndices(f: (int, seq<int>) -> (seq<nat>, seq<int>)) {
    forall k, c ::
      && |f(k, c).0| == |f(k, c).1|
      && forall j :: 0 <= j < |f(k, c).0| ==> f(k, c).0[j] < |c| && f(k, c).1[j] == c[f(k, c).0[j]]
  }

  /** Every score row has one entry per item of the item list. */
  ghost predicate RowsMatchItems(ev: Evaluation) {
    forall uid: nat :: uid < |ev.users| ==> |ev.scoreOf(uid)| == |ev.items|
  }

  /**
   * With a top-K routine that keeps its promise and score rows aligned with
   * the item list, a known user whose rated items are all known gets a list
   * of exactly the returned length, each pair carrying its item's masked
   * score; a rated item that is recommended at all carries the sentinel.
   */
  lemma RankUserWithValidSelection(ev: Evaluation, user: string)
    requires FindsValidIndices(ev.findKLargest) && RowsMatchItems(ev) && Distinct(ev.items)
    requires user in ev.users && forall x :: x in ev.ratedOf(user) ==> x in ev.items
    ensures Candidates(ev, user).Ok? && RankUser(ev, user).Ok?
    ensures var c := Candidates(ev, user).value;
      var sel := ev.findKLargest(ev.maxN, c);
      var l := RankUser(ev, user).value;
      && |l| == |sel.0|
      && forall j :: 0 <= j < |l| ==>
           && l[j] == (ev.items[sel.0[j]], c[sel.0[j]])
           && (l[j].0 in ev.ratedOf(user) ==> l[j].1 == Sentinel)
  {
    var uid := IndexOf(ev.users, user).value;
    var row := ev.scoreOf(uid);
    var rated := ev.ratedOf(user);
    assert Maskable(|row|, ev.items, rated);
    MaskAllSucceeds(row, ev.items, rated);
    MaskAllPointwise(row, ev.items, rated);
    var c := Candidates(ev, user).value;
    var sel := ev.findKLargest(ev.maxN, c);
    assert |sel.0| == |sel.1|;
    forall j | 0 <= j < |sel.0|
      ensures sel.0[j] < |ev.items| && sel.1[j] == c[sel.0[j]]
      ensures ev.items[sel.0[j]] in rated ==> c[sel.0[j]] == Sentinel
    {
      if ev.items[sel.0[j]] in rated {
        IndexOfDistinct(ev.items, sel.0[j]);
        assert Masks(ev.items, rated, sel.0[j]);
      }
    }
  }
}
