/**
 * polarify/polarify.py, `polar_backers_avatars`: the loop that folds the
 * pledges of an organisation into one entry per pledger avatar, summing the
 * amounts. The pledge list is an input here; fetching it is not modelled.
 */
module Backers {
  import opened Text

  datatype CurrencyAmount = CurrencyAmount(currency: string, amount: int)

  datatype Pledger = Pledger(name: string, githubUsername: Option<string>, avatarUrl: string)

  datatype Pledge = Pledge(id: string, amount: CurrencyAmount, pledger: Pledger)

  /** `DedupPledger`: one backer, with the total of all their pledges. */
  datatype Backer = Backer(name: string, avatarUrl: string, githubUsername: Option<string>, amount: int)

  /** The dictionary `deduplicated`: its keys in insertion order, and its entries. */
  datatype Table = Table(order: seq<string>, entries: map<string, Backer>)

  function Url(p: Pledge): string {
    p.pledger.avatarUrl
  }

  /**
   * The shape a Python dict keyed by avatar URL has: every key listed once,
   * the listed keys are exactly the keys, each entry sits under its own URL,
   * and the empty URL is never a key.
   */
  ghost predicate WellFormed(t: Table) {
    && "" !in t.entries
    && (forall i, j :: 0 <= i < j < |t.order| ==> t.order[i] != t.order[j])
    && (forall k :: k in t.entries <==> k in t.order)
    && (forall k :: k in t.entries ==> t.entries[k].avatarUrl == k)
  }

  /** One turn of the loop: skip, add to an existing entry, or insert a new one. */
  function Add(t: Table, p: Pledge): Table
  {
    var url := Url(p);
    if url == "" then t
    else if url in t.entries then
      var existing := t.entries[url];
      Table(t.order, t.entries[url := existing.(amount := existing.amount + p.amount.amount)])
    else
      Table(t.order + [url], t.entries[url := Backer(p.pledger.name, url, p.pledger.githubUsername, p.amount.amount)])
  }

  /**
   * One turn of the loop adds the pledge's amount under its avatar URL, which
   * becomes a key, listed last, when it was not one; a pledge with an empty
   * URL changes nothing; every other entry, and the keys already listed,
   * stay as they were.
   */
  lemma AddEffect(t: Table, p: Pledge)
    ensures var r := Add(t, p);
      forall k :: k in r.entries <==> k in t.entries || (k == Url(p) && k != "")
    ensures var r := Add(t, p);
      forall k :: k in t.entries && k != Url(p) ==> r.entries[k] == t.entries[k]
    ensures var r := Add(t, p);
      Url(p) != "" ==>
        r.entries[Url(p)].amount == p.amount.amount + (if Url(p) in t.entries then t.entries[Url(p)].amount else 0)
    ensures var r := Add(t, p);
      |t.order| <= |r.order| <= |t.order| + 1 && r.order[..|t.order|] == t.order
    ensures var r := Add(t, p);
      |r.order| == |t.order| + 1 <==> Url(p) != "" && Url(p) !in t.entries
  {
  }

  /** One turn of the loop keeps the shape of a Python dictionary keyed by avatar URL. */
  lemma AddKeepsWellFormed(t: Table, p: Pledge)
    requires WellFormed(t)
    ensures WellFormed(Add(t, p))
  {
  }

  /** The dictionary after the loop has seen `ps`. */
  function Dedup(ps: seq<Pledge>): (t: Table)
    ensures WellFormed(t)
    decreases |ps|
  {
    if ps == [] then Table([], map[]) else Add(Dedup(ps[..|ps| - 1]), ps[|ps| - 1])
  }

  /** The position of the first pledge with avatar `url`, or -1 when there is none. */
  function FirstWith(ps: seq<Pledge>, url: string): (r: int)
    ensures -1 <= r < |ps|
    ensures r >= 0 ==> Url(ps[r]) == url && forall j :: 0 <= j < r ==> Url(ps[j]) != url
    ensures r == -1 ==> forall j :: 0 <= j < |ps| ==> Url(ps[j]) != url
    decreases |ps|
  {
    if ps == [] then -1
    else
      var k := FirstWith(ps[..|ps| - 1], url);
      if k >= 0 then k
      else if Url(ps[|ps| - 1]) == url then |ps| - 1
      else -1
  }

  /** The total amount pledged with avatar `url`. */
  function SumFor(ps: seq<Pledge>, url: string): int
    decreases |ps|
  {
    if ps == [] then 0
    else SumFor(ps[..|ps| - 1], url) + (if Url(ps[|ps| - 1]) == url then ps[|ps| - 1].amount.amount else 0)
  }

  /** A backer is kept exactly for each non-empty avatar URL some pledge has. */
  lemma {:induction false} DedupKeys(ps: seq<Pledge>, url: string)
    ensures url in Dedup(ps).entries <==> url != "" && FirstWith(ps, url) >= 0
    decreases |ps|
  {
    if ps != [] {
      DedupKeys(ps[..|ps| - 1], url);
    }
  }

  /** Each backer's amount is the sum of the amounts of all pledges with their avatar. */
  lemma {:induction false} DedupAmount(ps: seq<Pledge>, url: string)
    requires url in Dedup(ps).entries
    ensures Dedup(ps).entries[url].amount == SumFor(ps, url)
    decreases |ps|
  {
    assert ps != [];
    var init, p := ps[..|ps| - 1], ps[|ps| - 1];
    AddEffect(Dedup(init), p);
    if url in Dedup(init).entries {
      DedupAmount(init, url);
    } else {
      DedupKeys(init, url);
      SumForAbsent(init, url);
    }
  }

  lemma {:induction false} SumForAbsent(ps: seq<Pledge>, url: string)
    requires FirstWith(ps, url) == -1
    ensures SumFor(ps, url) == 0
    decreases |ps|
  {
    if ps != [] {
      SumForAbsent(ps[..|ps| - 1], url);
    }
  }

  /** A backer's name and GitHub user name are those of their first pledge. */
  lemma {:induction false} DedupFirstPledger(ps: seq<Pledge>, url: string)
    requires url in Dedup(ps).entries
    ensures FirstWith(ps, url) >= 0
    ensures Dedup(ps).entries[url].name == ps[FirstWith(ps, url)].pledger.name
    ensures Dedup(ps).entries[url].githubUsername == ps[FirstWith(ps, url)].pledger.githubUsername
    decreases |ps|
  {
    var init, p := ps[..|ps| - 1], ps[|ps| - 1];
    DedupKeys(init, url);
    if url in Dedup(init).entries {
      DedupFirstPledger(init, url);
      AddKeepsPledger(Dedup(init), p, url);
    } else {
      assert FirstWith(ps, url) == |ps| - 1;
    }
  }

  /** A turn of the loop keeps the name and GitHub user name of an existing entry. */
  lemma AddKeepsPledger(t: Table, p: Pledge, url: string)
    requires url in t.entries
    ensures url in Add(t, p).entries
    ensures Add(t, p).entries[url].name == t.entries[url].name
    ensures Add(t, p).entries[url].githubUsername == t.entries[url].githubUsername
  {
  }

  /**
   * Backers are listed in the order their first pledges appear: the result
   * of `sorted(...)` is thrown away, so no re-ordering by amount happens.
   */
  lemma {:induction false} DedupOrder(ps: seq<Pledge>, i: nat, j: nat)
    requires i < j < |Dedup(ps).order|
    ensures 0 <= FirstWith(ps, Dedup(ps).order[i]) < FirstWith(ps, Dedup(ps).order[j])
    decreases |ps|
  {
    var init := ps[..|ps| - 1];
    var t, t' := Dedup(init), Dedup(ps);
    var a, b := t'.order[i], t'.order[j];
    assert a in t'.entries && b in t'.entries;
    DedupKeys(ps, a);
    if j < |t.order| {
      assert t.order[i] == a && t.order[j] == b;
      DedupOrder(init, i, j);
    } else {
      assert b == Url(ps[|ps| - 1]) && b !in t.entries;
      assert a == t.order[i] && a in t.entries;
      DedupKeys(init, a);
      DedupKeys(init, b);
    }
  }

  /**
   * The loop of `polar_backers_avatars` over the pledges, updating the
   * dictionary in place; `existing.amount` is updated on a copy that is
   * stored back, which is what the in-place update amounts to here.
   */
  method Deduplicate(pledges: seq<Pledge>) returns (t: Table)
    ensures t == Dedup(pledges)
  {
    var order: seq<string> := [];
    var entries: map<string, Backer> := map[];
    for i := 0 to |pledges|
      invariant Table(order, entries) == Dedup(pledges[..i])
    {
      var p := pledges[i];
      assert pledges[..i + 1][..i] == pledges[..i];
      if p.pledger.avatarUrl == "" {
        continue;
      }
      var url := p.pledger.avatarUrl;
      if url in entries {
        var existing := entries[url];
        existing := existing.(amount := existing.amount + p.amount.amount);
        entries := entries[url := existing];
      } else {
        entries := entries[url := Backer(p.pledger.name, url, p.pledger.githubUsername, p.amount.amount)];
        order := order + [url];
      }
    }
    assert pledges[..|pledges|] == pledges;
    t := Table(order, entries);
  }
}
