/** The severity chart of the symptom page: the newest entries (the list arrives newest first)
    are cut to `limitForChart`, put in chronological order, and each gets a label made of the
    date and the hours and minutes of its `date_added`. */
module SymptomChart {
  import opened Text

  /** `limitForChart`. */
  const ChartLimit := 12

  /** A row of the symptom list as the chart reads it. */
  datatype Item = Item(dateAdded: string, severity: int)

  datatype Chart = Chart(labels: seq<string>, data: seq<int>)

  function Min(a: int, b: int): int
  {
    if a < b then a else b
  }

  /** `items.slice(0, limitForChart).reverse()`. */
  function ChartWindow<T>(items: seq<T>): (r: seq<T>)
    ensures |r| == Min(|items|, ChartLimit)
    ensures forall i :: 0 <= i < |r| ==> r[i] == items[|r| - 1 - i]
  {
    Reverse(Take(items, ChartLimit))
  }

  /** Reversing the window gives back the newest entries in their original order. */
  lemma WindowReversed<T>(items: seq<T>)
    ensures Reverse(ChartWindow(items)) == items[..Min(|items|, ChartLimit)]
  {
  }

  /** Entries beyond the twelfth never reach the chart. */
  lemma WindowIgnoresOlder<T>(items: seq<T>, older: seq<T>)
    requires |items| >= ChartLimit
    ensures ChartWindow(items + older) == ChartWindow(items)
  {
    assert Take(items + older, ChartLimit) == Take(items, ChartLimit);
  }

  /** `d.split(" ")[0] + " " + d.split(" ")[1].slice(0, 5)`; `None` when `d` has no space and
      the second piece is `undefined`, on which `.slice` throws. */
  function Label(d: string): (r: Option<string>)
    ensures r.None? <==> ' ' !in d
  {
    var parts := Split(d, ' ');
    if |parts| < 2 then None else Some(parts[0] + " " + Take(parts[1], 5))
  }

  /** A `YYYY-MM-DD HH:MM:SS` stamp gives `YYYY-MM-DD HH:MM`: the date, a space, and the first
      five characters of the time. */
  lemma LabelOfStamp(date: string, time: string)
    requires ' ' !in date && ' ' !in time
    ensures Label(date + " " + time) == Some(date + " " + Take(time, 5))
  {
    var ps := [date, time];
    assert Join(ps, ' ') == date + [' '] + Join([time], ' ') by {
      assert ps[1..] == [time];
    }
    assert date + " " + time == Join(ps, ' ');
    SplitJoin(ps, ' ');
  }

  /** The labels of a window, or `None` as soon as one of them throws. */
  function Labels(w: seq<Item>): (r: Option<seq<string>>)
    ensures r.Some? <==> forall i :: 0 <= i < |w| ==> ' ' in w[i].dateAdded
    ensures r.Some? ==> |r.value| == |w| && forall i :: 0 <= i < |w| ==> Label(w[i].dateAdded) == Some(r.value[i])
    decreases |w|
  {
    if |w| == 0 then Some([])
    else match (Label(w[0].dateAdded), Labels(w[1..]))
      case (Some(l), Some(ls)) => Some([l] + ls)
      case _ => None
  }

  function Severities(w: seq<Item>): (r: seq<int>)
    ensures |r| == |w| && forall i :: 0 <= i < |w| ==> r[i] == w[i].severity
  {
    seq(|w|, i requires 0 <= i < |w| => w[i].severity)
  }

  /** The chart's labels and data; `None` when a label throws and the chart is left as it was. */
  function ChartOf(items: seq<Item>): (r: Option<Chart>)
    ensures r.Some? <==> forall i :: 0 <= i < Min(|items|, ChartLimit) ==> ' ' in items[i].dateAdded
    ensures r.Some? ==> |r.value.labels| == |r.value.data| == Min(|items|, ChartLimit)
    ensures r.Some? ==> forall i :: 0 <= i < |r.value.data| ==>
      r.value.data[i] == items[|r.value.data| - 1 - i].severity
      && Label(items[|r.value.data| - 1 - i].dateAdded) == Some(r.value.labels[i])
  {
    var w := ChartWindow(items);
    var n := |w|;
    assert forall i :: 0 <= i < n ==> w[n - 1 - i] == items[i];
    match Labels(w)
    case None => None
    case Some(ls) => Some(Chart(ls, Severities(w)))
  }

  /** Entries beyond the twelfth do not change the chart. */
  lemma ChartIgnoresOlder(items: seq<Item>, older: seq<Item>)
    requires |items| >= ChartLimit
    ensures ChartOf(items + older) == ChartOf(items)
  {
    WindowIgnoresOlder(items, older);
  }
}
