/** Read-only queries over the trains table, kept in primary-key order. */
module Catalog {
  import opened Records

  /** The position of the first row whose id is `id`: the row a lookup by
      primary key returns, or None when there is no such train. */
  function FindTrain(trains: seq<Train>, id: int): (r: Option<nat>)
    ensures r.Some? ==> r.value < |trains| && trains[r.value].id == id
    ensures r.Some? ==> forall j :: 0 <= j < r.value ==> trains[j].id != id
    ensures r.None? <==> forall j :: 0 <= j < |trains| ==> trains[j].id != id
  {
    if |trains| == 0 then None
    else if trains[0].id == id then Some(0)
    else match FindTrain(trains[1..], id)
      case None => None
      case Some(k) => Some(k + 1)
  }

  /** Rewriting rows without touching their ids does not change any lookup. */
  lemma {:induction false} FindTrainIgnoresOtherColumns(trains: seq<Train>, trains': seq<Train>, id: int)
    requires |trains| == |trains'|
    requires forall j :: 0 <= j < |trains| ==> trains[j].id == trains'[j].id
    ensures FindTrain(trains, id) == FindTrain(trains', id)
  {
    if |trains| > 0 && trains[0].id != id {
      FindTrainIgnoresOtherColumns(trains[1..], trains'[1..], id);
    }
  }

  /** Inserting a row keeps every existing lookup and makes the new id findable. */
  lemma {:induction false} FindTrainAppend(trains: seq<Train>, t: Train, id: int)
    ensures FindTrain(trains + [t], id)
         == if FindTrain(trains, id).Some? then FindTrain(trains, id)
            else if t.id == id then Some(|trains|) else None
  {
    if |trains| > 0 && trains[0].id != id {
      assert (trains + [t])[1..] == trains[1..] + [t];
      FindTrainAppend(trains[1..], t, id);
    }
  }

  /** One entry of the availability answer: the train's id, name and free seats. */
  datatype Availability = Availability(id: int, name: string, availableSeats: int)

  function Summary(t: Train): Availability
  {
    Availability(t.id, t.name, t.availableSeats)
  }

  predicate OnRoute(t: Train, source: string, destination: string)
  {
    t.source == source && t.destination == destination
  }

  /** The availability query: every train whose source and destination both
      match exactly, in table order, with its free seats copied through. */
  function CheckAvailability(trains: seq<Train>, source: string, destination: string): (r: seq<Availability>)
    ensures |r| <= |trains|
    ensures forall a :: a in r <==>
      exists t :: t in trains && OnRoute(t, source, destination) && a == Summary(t)
    ensures r == [] <==> forall t :: t in trains ==> !OnRoute(t, source, destination)
  {
    if |trains| == 0 then []
    else
      var first := trains[0];
      var rest := CheckAvailability(trains[1..], source, destination);
      assert forall t :: t in trains <==> t == first || t in trains[1..];
      (if OnRoute(first, source, destination) then [Summary(first)] else []) + rest
  }

  /** A newly inserted train shows up at the end of the answer exactly when it
      is on the route; the answer for the older rows is unchanged. */
  lemma {:induction false} CheckAvailabilityAppend(trains: seq<Train>, t: Train, source: string, destination: string)
    ensures CheckAvailability(trains + [t], source, destination)
         == CheckAvailability(trains, source, destination)
            + if OnRoute(t, source, destination) then [Summary(t)] else []
  {
    if |trains| > 0 {
      assert (trains + [t])[0] == trains[0];
      assert (trains + [t])[1..] == trains[1..] + [t];
      CheckAvailabilityAppend(trains[1..], t, source, destination);
    }
  }

  /** When ids increase along the table they increase along the answer: each
      matching train is listed once, in table order. */
  lemma {:induction false} AnswerIdsIncrease(trains: seq<Train>, source: string, destination: string)
    requires forall i, j :: 0 <= i < j < |trains| ==> trains[i].id < trains[j].id
    ensures Increasing(CheckAvailability(trains, source, destination))
  {
    if |trains| > 0 {
      var first := trains[0];
      var rest := CheckAvailability(trains[1..], source, destination);
      AnswerIdsIncrease(trains[1..], source, destination);
      if OnRoute(first, source, destination) {
        AnswerIdsAbove(trains[1..], source, destination, first.id);
        PrependIncreasing(Summary(first), rest);
      }
    }
  }

  /** The ids of the answer strictly increase. */
  predicate Increasing(r: seq<Availability>)
  {
    forall i, j :: 0 <= i < j < |r| ==> r[i].id < r[j].id
  }

  /** Every id in the answer is an id of the table, so a bound on the table's
      ids bounds the answer's. */
  lemma {:induction false} AnswerIdsAbove(trains: seq<Train>, source: string, destination: string, bound: int)
    requires forall k :: 0 <= k < |trains| ==> bound < trains[k].id
    ensures forall a :: a in CheckAvailability(trains, source, destination) ==> bound < a.id
  {
    if |trains| > 0 {
      AnswerIdsAbove(trains[1..], source, destination, bound);
    }
  }

  /** Putting a smaller id in front keeps the ids increasing. */
  lemma PrependIncreasing(a: Availability, rest: seq<Availability>)
    requires Increasing(rest)
    requires forall b :: b in rest ==> a.id < b.id
    ensures Increasing([a] + rest)
  {
    var r := [a] + rest;
    forall i, j | 0 <= i < j < |r| ensures r[i].id < r[j].id {
      assert r[j] == rest[j - 1];
      if i > 0 {
        assert r[i] == rest[i - 1];
      } else {
        assert rest[j - 1] in rest;
      }
    }
  }
}
