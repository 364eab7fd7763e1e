/** The endpoint table of the sidebar: rows sorted by descending
    probability, the first three shown until the table is expanded, a
    "+N more" count for the rest, and a colour per status. */
module DataTable {
  import opened Sequences
  import opened Endpoint
  import Decimal

  /** The sort key that orders `(a, b) => b.pActive - a.pActive` ascending. */
  function Descending(r: EndpointRecord): real {
    -r.pActive
  }

  /** `[...data].sort((a, b) => b.pActive - a.pActive)`: a sorted copy, so
      `data` itself is left as it was. */
  function SortedData(data: seq<EndpointRecord>): seq<EndpointRecord> {
    SortBy(data, Descending)
  }

  /** The sorted rows are the input rows, each as often as before, with
      probabilities never increasing down the table. */
  lemma SortedDataSpec(data: seq<EndpointRecord>)
    ensures multiset(SortedData(data)) == multiset(data)
    ensures forall i, j :: 0 <= i < j < |SortedData(data)| ==>
      SortedData(data)[i].pActive >= SortedData(data)[j].pActive
  {
    SortBySorted(data, Descending);
  }

  /** The rows whose probability is `p`. */
  function WithProb(p: real): EndpointRecord -> bool {
    KeyIs(Descending, -p)
  }

  /** The sort is stable: rows with equal probability keep their order. */
  lemma SortedDataStable(data: seq<EndpointRecord>, p: real, r: EndpointRecord)
    ensures WithProb(p)(r) <==> r.pActive == p
    ensures Filter(SortedData(data), WithProb(p)) == Filter(data, WithProb(p))
  {
    assert WithProb(p)(r) == (Descending(r) == -p);
    SortByStable(data, Descending, -p);
  }

  function Min(a: nat, b: nat): nat {
    if a <= b then a else b
  }

  /** `showAll ? sortedData : sortedData.slice(0, 3)`; `slice` stops at
      the end of a shorter array. */
  function DisplayData(data: seq<EndpointRecord>, showAll: bool): seq<EndpointRecord> {
    var sorted := SortedData(data);
    if showAll then sorted else sorted[..Min(3, |sorted|)]
  }

  /** `Math.max(0, data.length - 3)`. */
  function RemainingCount(data: seq<EndpointRecord>): nat {
    if |data| > 3 then |data| - 3 else 0
  }

  /** Collapsed, the table shows a prefix of the sorted rows holding the
      largest probabilities; the shown rows and the "+N more" count add up
      to all rows. Expanded, it shows every sorted row. */
  lemma DisplayDataSpec(data: seq<EndpointRecord>)
    ensures DisplayData(data, true) == SortedData(data)
    ensures var shown := DisplayData(data, false);
      && |shown| <= 3
      && shown == SortedData(data)[..|shown|]
      && |shown| + RemainingCount(data) == |data|
      && forall i, j :: 0 <= i < |shown| <= j < |data| ==>
        shown[i].pActive >= SortedData(data)[j].pActive
  {
    SortedDataSpec(data);
  }

  /** `getStatusColor`. */
  function StatusColor(s: Status): string {
    match s
    case High => "bg-red-500"
    case Medium => "bg-yellow-500"
    case Low => "bg-green-500"
  }

  /** High risk is red, medium yellow and low green, so distinct statuses
      get distinct colours. */
  lemma StatusColorInjective(s: Status, t: Status)
    ensures StatusColor(High) == "bg-red-500"
    ensures StatusColor(Medium) == "bg-yellow-500"
    ensures StatusColor(Low) == "bg-green-500"
    ensures StatusColor(s) == StatusColor(t) <==> s == t
  {
    assert "bg-red-500"[3] != "bg-yellow-500"[3];
    assert "bg-red-500"[3] != "bg-green-500"[3];
    assert "bg-yellow-500"[3] != "bg-green-500"[3];
  }

  /** The caption of the expand button: `+N more` while collapsed. */
  function ExpandLabel(data: seq<EndpointRecord>, showAll: bool): string {
    if showAll then "Show Less" else "+" + Decimal.Show(RemainingCount(data)) + " more"
  }

  /** The collapsed caption is `+`, the canonical numeral of the number of
      hidden rows, and ` more`; `parseInt` of everything after the `+`
      reads back that number. */
  lemma ExpandLabelCount(data: seq<EndpointRecord>)
    ensures var caption, hidden := ExpandLabel(data, false), |data| - |DisplayData(data, false)|;
      && |caption| >= 7
      && caption[0] == '+'
      && caption[|caption| - 5..] == " more"
      && Decimal.Canonical(caption[1..|caption| - 5])
      && Decimal.ParseInt(caption[1..]) == hidden
  {
    var digits := Decimal.Show(RemainingCount(data));
    var caption := ExpandLabel(data, false);
    var tail := caption[1..];
    assert caption[1..|caption| - 5] == digits;
    assert tail == digits + " more";
    assert tail[..|digits|] == digits;
    Decimal.DigitRunOfPrefix(tail, |digits|);
    Decimal.DigitRunOfDigits(digits);
    DisplayDataSpec(data);
  }
}
