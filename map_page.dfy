/**
 * The map page of pages/map.py: one marker trace per Award value, and the
 * marker click handler that opens a restaurant's description.
 */
module MapPage {
  import opened Common
  import opened Grouping
  import opened App

  /**
   * One trace of the map figure: its legend name and its markers, in
   * dataset order (each marker shows the row's Name, Award and award size).
   */
  datatype AwardTrace = AwardTrace(name: string, markers: seq<Restaurant>)

  /** Every member of every Award group is a row of the dataset carrying that group's Award. */
  lemma AwardGroupsUniform(df: seq<Restaurant>)
    ensures forall i :: 0 <= i < |GroupBy(df, AwardOf)| ==>
              && GroupBy(df, AwardOf)[i].members != []
              && GroupBy(df, AwardOf)[i].members == Select(df, AwardOf, GroupBy(df, AwardOf)[i].key)
              && forall x :: x in GroupBy(df, AwardOf)[i].members ==>
                   x in df && x.award == Some(GroupBy(df, AwardOf)[i].key)
  {
    GroupBySelect(df, AwardOf);
    forall i | 0 <= i < |GroupBy(df, AwardOf)|
      ensures forall x :: x in GroupBy(df, AwardOf)[i].members ==>
                x in df && x.award == Some(GroupBy(df, AwardOf)[i].key)
    {
      SelectMembers(df, AwardOf, GroupBy(df, AwardOf)[i].key);
    }
  }

  /** A trace is named by the Award of its first marker (`tmp['Award'].iloc[0]`). */
  function Trace(members: seq<Restaurant>): AwardTrace
    requires members != [] && members[0].award.Some?
  {
    AwardTrace(members[0].award.value, members)
  }

  /**
   * `update_map`'s traces: `groupby('Award', sort=False)` splits the rows with
   * an Award into one trace per Award value, each holding that Award's rows
   * in dataset order and named after the Award of its first marker.
   */
  function UpdateMap(df: seq<Restaurant>): (traces: seq<AwardTrace>)
    ensures forall i :: 0 <= i < |traces| ==>
              traces[i].markers != [] && traces[i].markers == Select(df, AwardOf, traces[i].name)
  {
    TracesFollowGroups(df);
    Traces(GroupBy(df, AwardOf))
  }

  /** Every group of `GroupBy(df, AwardOf)` is a non-empty run of rows sharing the group's Award. */
  ghost predicate AwardGroups(groups: seq<Group<string, Restaurant>>)
  {
    forall i :: 0 <= i < |groups| ==>
      groups[i].members != [] && groups[i].members[0].award == Some(groups[i].key)
  }

  function Traces(groups: seq<Group<string, Restaurant>>): seq<AwardTrace>
    requires AwardGroups(groups)
  {
    seq(|groups|, i requires 0 <= i < |groups| => Trace(groups[i].members))
  }

  /** The i-th trace draws the i-th Award group, under that group's Award. */
  lemma TracesFollowGroups(df: seq<Restaurant>)
    ensures AwardGroups(GroupBy(df, AwardOf))
    ensures |Traces(GroupBy(df, AwardOf))| == |GroupBy(df, AwardOf)|
    ensures forall i :: 0 <= i < |GroupBy(df, AwardOf)| ==>
              && Traces(GroupBy(df, AwardOf))[i].name == GroupBy(df, AwardOf)[i].key
              && Traces(GroupBy(df, AwardOf))[i].markers == GroupBy(df, AwardOf)[i].members
              && GroupBy(df, AwardOf)[i].members == Select(df, AwardOf, GroupBy(df, AwardOf)[i].key)
              && GroupBy(df, AwardOf)[i].members != []
  {
    var groups := GroupBy(df, AwardOf);
    AwardGroupsUniform(df);
    assert forall i :: 0 <= i < |groups| ==> groups[i].members[0] in groups[i].members;
  }

  /** Every marker is a row of the dataset whose Award is its trace's name. */
  lemma TracesUniform(df: seq<Restaurant>)
    ensures forall i, r :: 0 <= i < |UpdateMap(df)| && r in UpdateMap(df)[i].markers ==>
              r in df && r.award == Some(UpdateMap(df)[i].name)
  {
    forall i | 0 <= i < |UpdateMap(df)|
      ensures forall r :: r in UpdateMap(df)[i].markers ==> r in df && r.award == Some(UpdateMap(df)[i].name)
    {
      SelectMembers(df, AwardOf, UpdateMap(df)[i].name);
    }
  }

  /** Every row with an Award has a trace named after it. */
  lemma TracesCover(df: seq<Restaurant>)
    ensures forall n :: 0 <= n < |df| && df[n].award.Some? ==>
              exists i :: 0 <= i < |UpdateMap(df)| && UpdateMap(df)[i].name == df[n].award.value
  {
    TracesFollowGroups(df);
    GroupByCovers(df, AwardOf);
    var groups := GroupBy(df, AwardOf);
    forall n | 0 <= n < |df| && df[n].award.Some?
      ensures exists i :: 0 <= i < |UpdateMap(df)| && UpdateMap(df)[i].name == df[n].award.value
    {
      var i :| 0 <= i < |groups| && groups[i].key == AwardOf(df[n]).value;
      assert UpdateMap(df)[i].name == groups[i].key;
    }
  }

  /** The traces come in order of each Award's first appearance in the dataset. */
  lemma TracesFirstAppearance(df: seq<Restaurant>)
    ensures forall i, j :: 0 <= i < j < |UpdateMap(df)| ==>
              FirstAt(df, AwardOf, UpdateMap(df)[i].name) < FirstAt(df, AwardOf, UpdateMap(df)[j].name)
  {
    TracesFollowGroups(df);
    GroupByFirstAppearance(df, AwardOf);
  }

  /** A row is drawn in a trace exactly when its Award is the trace's name. */
  lemma MarkerInTrace(df: seq<Restaurant>, i: nat, n: nat)
    requires i < |UpdateMap(df)| && n < |df|
    ensures df[n] in UpdateMap(df)[i].markers <==> df[n].award == Some(UpdateMap(df)[i].name)
  {
    SelectMembers(df, AwardOf, UpdateMap(df)[i].name);
  }

  /** No two traces share a legend name. */
  lemma TraceNamesDistinct(df: seq<Restaurant>)
    ensures forall i, j :: 0 <= i < j < |UpdateMap(df)| ==> UpdateMap(df)[i].name != UpdateMap(df)[j].name
  {
    var traces := UpdateMap(df);
    TracesFirstAppearance(df);
    forall i, j | 0 <= i < j < |traces| ensures traces[i].name != traces[j].name {
      assert FirstAt(df, AwardOf, traces[i].name) < FirstAt(df, AwardOf, traces[j].name);
    }
  }

  function Always(r: Restaurant): bool
  {
    true
  }

  function MarkerTotal(traces: seq<AwardTrace>): nat
    decreases |traces|
  {
    if |traces| == 0 then 0 else |traces[0].markers| + MarkerTotal(traces[1..])
  }

  lemma {:induction false} CountAlways(s: seq<Restaurant>)
    ensures Count(s, Always) == |s|
    decreases |s|
  {
    if |s| > 0 {
      CountAlways(s[1..]);
    }
  }

  lemma {:induction false} MarkerTotalGroups(gs: seq<Group<string, Restaurant>>)
    requires AwardGroups(gs)
    ensures MarkerTotal(Traces(gs)) == GroupCount(gs, Always)
    decreases |gs|
  {
    if |gs| > 0 {
      MarkerTotalGroups(gs[1..]);
      CountAlways(gs[0].members);
      assert Traces(gs)[1..] == Traces(gs[1..]);
    }
  }

  /**
   * Together the traces hold exactly as many markers as there are rows
   * with an Award: the groups partition those rows.
   */
  lemma MarkersPartitionAwarded(df: seq<Restaurant>)
    ensures MarkerTotal(UpdateMap(df)) == |Keyed(df, AwardOf)|
  {
    var groups := GroupBy(df, AwardOf);
    TracesFollowGroups(df);
    MarkerTotalGroups(groups);
    GroupByCount(df, AwardOf, Always);
    CountAlways(Keyed(df, AwardOf));
  }

  // ---------------------------------------------------------------- click handler

  /** A click on a marker: the marker's text, which is its row's Name and is missing when that Name is. */
  datatype Click = Click(text: Option<string>)

  /** What the description modal receives: nothing, or its content and `opened=True`. */
  datatype ClickOutcome =
    | NoUpdate
    | Opened(name: string, description: Option<string>)
    | NoSuchName   // the lookup raises: no text, or `.iloc[0]` on an empty selection

  /** The index of the first row whose Name equals `name`, if any. */
  function FirstNamed(df: seq<Restaurant>, name: string): (n: Option<nat>)
    ensures n.None? <==> forall i :: 0 <= i < |df| ==> df[i].name != Some(name)
    ensures n.Some? ==> n.value < |df| && df[n.value].name == Some(name)
                        && forall j :: 0 <= j < n.value ==> df[j].name != Some(name)
    decreases |df|
  {
    if |df| == 0 then None
    else if df[0].name == Some(name) then Some(0)
    else
      var rest := FirstNamed(df[1..], name);
      assert forall i :: 1 <= i < |df| ==> df[i] == df[1..][i - 1];
      if rest.None? then None else Some(rest.value + 1)
  }

  /**
   * The marker click handler: no click leaves the modal alone; a click on a
   * marker shows the Description of the first row with the clicked Name. A
   * marker without a Name has no text to look up (a missing value never
   * equals a Name), so the lookup fails as it does for an unknown Name.
   */
  function OnMarkerClick(df: seq<Restaurant>, clicked: Option<Click>): (out: ClickOutcome)
    ensures clicked.None? <==> out.NoUpdate?
    ensures out.NoSuchName? <==>
              && clicked.Some?
              && (clicked.value.text.None? || forall i :: 0 <= i < |df| ==> df[i].name != clicked.value.text)
    ensures out.Opened? ==>
              && clicked.Some? && clicked.value.text == Some(out.name)
              && exists i :: 0 <= i < |df| && df[i].name == Some(out.name) && out.description == df[i].description
                             && forall j :: 0 <= j < i ==> df[j].name != Some(out.name)
  {
    match clicked
    case None => NoUpdate
    case Some(Click(None)) => NoSuchName
    case Some(Click(Some(name))) =>
      match FirstNamed(df, name)
      case None => NoSuchName
      case Some(n) => Opened(name, df[n].description)
  }

  /** Clicking any marker drawn by `UpdateMap` for a row with a Name opens the modal. */
  lemma ClickOnMarkerOpens(df: seq<Restaurant>, t: AwardTrace, r: Restaurant)
    requires t in UpdateMap(df) && r in t.markers && r.name.Some?
    ensures OnMarkerClick(df, Some(Click(r.name))).Opened?
    ensures OnMarkerClick(df, Some(Click(r.name))).name == r.name.value
  {
    TracesUniform(df);
    var k :| 0 <= k < |UpdateMap(df)| && UpdateMap(df)[k] == t;
    assert r in df;
    var i :| 0 <= i < |df| && df[i] == r;
  }

  /** Clicking a drawn marker of a row without a Name makes the lookup fail. */
  lemma ClickOnNamelessMarkerFails(df: seq<Restaurant>, t: AwardTrace, r: Restaurant)
    requires t in UpdateMap(df) && r in t.markers && r.name.None?
    ensures OnMarkerClick(df, Some(Click(r.name))).NoSuchName?
  {
  }
}
