/** The endpoint API's data shaping: the three-level status a probability
    falls into, and the endpoint records built from the entries of the
    model's output, numbered from one. */
module Endpoint {
  import Decimal

  datatype Status = Low | Medium | High

  /** The order low < medium < high. */
  function Rank(s: Status): nat {
    match s
    case Low => 0
    case Medium => 1
    case High => 2
  }

  /** `getStatus`: high from 80 up, medium from 50 up, low below. */
  function GetStatus(prob: real): Status {
    if prob >= 80.0 then High
    else if prob >= 50.0 then Medium
    else Low
  }

  /** Each status covers one interval of probabilities. */
  lemma GetStatusBands(prob: real)
    ensures GetStatus(prob) == High <==> 80.0 <= prob
    ensures GetStatus(prob) == Medium <==> 50.0 <= prob < 80.0
    ensures GetStatus(prob) == Low <==> prob < 50.0
  {
  }

  /** A larger probability never gives a lower status. */
  lemma GetStatusMonotone(p: real, q: real)
    requires p <= q
    ensures Rank(GetStatus(p)) <= Rank(GetStatus(q))
  {
  }

  /** One entry of the model output: a name and its numbers. */
  datatype Entry = Entry(name: string, prob: real, confidence: real)

  datatype EndpointRecord = EndpointRecord(
    id: string, name: string, pActive: real, confidence: real, status: Status)

  /** The record for the entry at zero-based position `index`. */
  function MakeRecord(index: nat, e: Entry): EndpointRecord {
    EndpointRecord(Decimal.Show(index + 1), e.name, e.prob, e.confidence, GetStatus(e.prob))
  }

  /** The `map` over the entries, the first of them at position `start`. */
  function RecordsFrom(entries: seq<Entry>, start: nat): (r: seq<EndpointRecord>)
    ensures |r| == |entries|
    decreases |entries|
  {
    if entries == [] then []
    else [MakeRecord(start, entries[0])] + RecordsFrom(entries[1..], start + 1)
  }

  function Endpoints(entries: seq<Entry>): seq<EndpointRecord> {
    RecordsFrom(entries, 0)
  }

  lemma {:induction false} RecordsFromAt(entries: seq<Entry>, start: nat, i: nat)
    requires i < |entries|
    ensures RecordsFrom(entries, start)[i] == MakeRecord(start + i, entries[i])
    decreases |entries|
  {
    if i > 0 {
      RecordsFromAt(entries[1..], start + 1, i - 1);
    }
  }

  /** One record per entry, in entry order: the name, probability and
      confidence copied, the status derived from the probability, and the
      id the canonical decimal numeral of the one-based position (which
      `Decimal.ShowOfCanonical` shows is exactly `String(i + 1)`). */
  lemma EndpointsSpec(entries: seq<Entry>)
    ensures |Endpoints(entries)| == |entries|
    ensures forall i :: 0 <= i < |entries| ==>
      var r := Endpoints(entries)[i];
      && r.name == entries[i].name
      && r.pActive == entries[i].prob
      && r.confidence == entries[i].confidence
      && r.status == GetStatus(entries[i].prob)
      && Decimal.Canonical(r.id) && Decimal.ParseInt(r.id) == i + 1
  {
    forall i | 0 <= i < |entries|
      ensures var r := Endpoints(entries)[i];
        && r.name == entries[i].name
        && r.pActive == entries[i].prob
        && r.confidence == entries[i].confidence
        && r.status == GetStatus(entries[i].prob)
        && Decimal.Canonical(r.id) && Decimal.ParseInt(r.id) == i + 1
    {
      RecordsFromAt(entries, 0, i);
      Decimal.ParseShow(i + 1);
      Decimal.DigitRunOfDigits(Decimal.Show(i + 1));
    }
  }

  /** No two records share an id. */
  lemma EndpointIdsDistinct(entries: seq<Entry>, i: nat, j: nat)
    requires i < j < |entries|
    ensures Endpoints(entries)[i].id != Endpoints(entries)[j].id
  {
    RecordsFromAt(entries, 0, i);
    RecordsFromAt(entries, 0, j);
    Decimal.ShowInjective(i + 1, j + 1);
  }
}
