/** A left-to-right pass that keeps the items a decision accepts and stops
    at the first item whose decision fails, as a loop that appends to a
    list and lets an exception escape does. */
module Scanning {
  import opened Outcomes
  import opened Seqs

  /** The items are visited in order; `decide` either accepts, rejects or fails. */
  function Scan<T, E>(decide: T -> Result<bool, E>, items: seq<T>): (r: Result<seq<T>, E>)
    ensures r.Ok? ==> |r.value| <= |items|
    ensures r.Ok? ==> forall k :: 0 <= k < |r.value| ==> decide(r.value[k]) == Ok(true)
  {
    if items == [] then Ok([])
    else
      var n := |items| - 1;
      match Scan(decide, items[..n])
      case Err(e) => Err(e)
      case Ok(kept) =>
        match decide(items[n])
        case Err(e) => Err(e)
        case Ok(b) => Ok(if b then kept + [items[n]] else kept)
  }

  /** The items `decide` accepts. */
  function Passes<T, E>(decide: T -> Result<bool, E>): T -> bool
  {
    x => decide(x) == Ok(true)
  }

  /** One more item: the pass so far, extended by that item's decision. */
  lemma ScanStep<T, E>(decide: T -> Result<bool, E>, items: seq<T>, i: nat, kept: seq<T>)
    requires i < |items| && Scan(decide, items[..i]) == Ok(kept)
    ensures decide(items[i]).Err? ==> Scan(decide, items[..i + 1]) == Err(decide(items[i]).error)
    ensures decide(items[i]) == Ok(true) ==> Scan(decide, items[..i + 1]) == Ok(kept + [items[i]])
    ensures decide(items[i]) == Ok(false) ==> Scan(decide, items[..i + 1]) == Ok(kept)
  {
    assert items[..i + 1][..i] == items[..i];
    assert items[..i + 1][i] == items[i];
  }

  /** The pass completes exactly when no decision fails. */
  lemma {:induction false} ScanCompletes<T, E>(decide: T -> Result<bool, E>, items: seq<T>)
    ensures Scan(decide, items).Ok? <==> forall k :: 0 <= k < |items| ==> decide(items[k]).Ok?
  {
    if items != [] {
      var n := |items| - 1;
      var front := items[..n];
      ScanCompletes(decide, front);
      assert Scan(decide, items).Ok? <==> Scan(decide, front).Ok? && decide(items[n]).Ok?;
      assert forall k :: 0 <= k < n ==> front[k] == items[k];
    }
  }

  /** A pass that fails reports the failure of the first item whose
      decision fails; every item before it was decided. */
  lemma {:induction false} ScanReportsFirstError<T, E>(decide: T -> Result<bool, E>, items: seq<T>) returns (k: nat)
    requires Scan(decide, items).Err?
    ensures k < |items| && decide(items[k]) == Err(Scan(decide, items).error)
    ensures forall j :: 0 <= j < k ==> decide(items[j]).Ok?
  {
    var n := |items| - 1;
    var front := items[..n];
    if Scan(decide, front).Err? {
      k := ScanReportsFirstError(decide, front);
      assert front[k] == items[k];
      assert forall j :: 0 <= j < k ==> front[j] == items[j];
    } else {
      k := n;
      ScanCompletes(decide, front);
      assert forall j :: 0 <= j < n ==> front[j] == items[j];
    }
  }

  /** A pass that completes keeps exactly the accepted items, in order. */
  lemma {:induction false} ScanKeepsPassing<T, E>(decide: T -> Result<bool, E>, items: seq<T>)
    requires Scan(decide, items).Ok?
    ensures Scan(decide, items).value == Filter(Passes(decide), items)
  {
    if items != [] {
      var n := |items| - 1;
      var front := items[..n];
      ScanKeepsPassing(decide, front);
      var kept := Scan(decide, front).value;
      var v := decide(items[n]);
      assert Scan(decide, items).value == if v.value then kept + [items[n]] else kept;
      assert Passes(decide)(items[n]) == v.value;
    }
  }

  /** Once a prefix fails, the whole pass fails the same way: nothing after
      the first failure is looked at. */
  lemma {:induction false} ScanStopsAtError<T, E>(decide: T -> Result<bool, E>, items: seq<T>, i: nat)
    requires i <= |items| && Scan(decide, items[..i]).Err?
    ensures Scan(decide, items) == Scan(decide, items[..i])
    decreases |items| - i
  {
    if i < |items| {
      var n := |items| - 1;
      var front := items[..n];
      assert front[..i] == items[..i];
      ScanStopsAtError(decide, front, i);
    } else {
      assert items[..i] == items;
    }
  }
}
