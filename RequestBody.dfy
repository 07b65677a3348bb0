/**
 * The request body sent to the Skyss departures endpoint, built from the
 * user's `stops` configuration (MMM-Skyss.js, buildRequestBody).
 *
 * Each configuration entry names a stop group (a stop place) and either one
 * stop (a quay) or a list of them. Identifiers get the NSR namespace prefix,
 * entries naming the same group are merged, and groups left without stops
 * are dropped.
 */
module RequestBody {
  import opened Wrappers
  import opened Text

  /** A configured identifier as JavaScript sees it: absent, a string or a number. */
  datatype RawId = Missing | Text(text: string) | Number(value: nat)

  /** JavaScript truthiness of a configured identifier. */
  predicate Truthy(id: RawId) {
    match id
    case Missing => false
    case Text(s) => s != ""
    case Number(n) => n != 0
  }

  /** The NSR object type that a bare identifier is prefixed with. */
  datatype IdKind = StopPlace | Quay

  function KindName(kind: IdKind): string {
    match kind
    case StopPlace => "StopPlace"
    case Quay => "Quay"
  }

  const NsrPrefix: string := "NSR:"

  /** `normalizeId`: the identifier with its NSR prefix, or None for a falsy one. */
  function NormalizeId(id: RawId, kind: IdKind): (r: Option<string>)
    ensures r.None? <==> !Truthy(id)
    ensures r.Some? ==> StartsWith(r.value, NsrPrefix)
    ensures id.Text? && StartsWith(id.text, NsrPrefix) ==> r == Some(id.text)
    ensures id.Number? && id.value != 0 ==> r == Some(NsrPrefix + KindName(kind) + ":" + NatToString(id.value))
  {
    match id
    case Missing => None
    case Text(s) =>
      if s == "" then None
      else if StartsWith(s, NsrPrefix) then Some(s)
      else Some(NsrPrefix + KindName(kind) + ":" + s)
    case Number(n) =>
      if n == 0 then None else Some(NsrPrefix + KindName(kind) + ":" + NatToString(n))
  }

  /** One entry of the `stops` configuration, in either of its two shapes. */
  datatype StopEntry = StopEntry(stopGroupId: RawId, stopId: RawId, stopIds: Option<seq<RawId>>)

  /** The grouped shape wins whenever `stopIds` and a truthy `stopGroupId` are both present. */
  predicate IsGrouped(e: StopEntry) {
    e.stopIds.Some? && Truthy(e.stopGroupId)
  }

  /** One stop group of the request, serialized as `{id, stops: [{id}, ...]}`. */
  datatype StopGroup = StopGroup(id: string, stops: seq<string>)

  datatype Body = Body(stopGroups: seq<StopGroup>)

  /** The quay identifiers a grouped entry's `stopIds` yields, falsy ones skipped. */
  function NormalizeStops(raw: seq<RawId>): seq<string> {
    if raw == [] then []
    else
      NormalizeStops(raw[..|raw| - 1]) +
      match NormalizeId(raw[|raw| - 1], Quay)
      case Some(s) => [s]
      case None => []
  }

  /** What one configuration entry adds to a group: the group id and the stops appended to it. */
  datatype Contribution = Contribution(groupId: string, stops: seq<string>)

  function Contribute(e: StopEntry): Option<Contribution> {
    if IsGrouped(e) then
      Some(Contribution(NormalizeId(e.stopGroupId, StopPlace).value, NormalizeStops(e.stopIds.value)))
    else if !Truthy(e.stopGroupId) || !Truthy(e.stopId) then
      None
    else
      Some(Contribution(NormalizeId(e.stopGroupId, StopPlace).value, [NormalizeId(e.stopId, Quay).value]))
  }

  /** The stops entry `e` appends to group `g`. */
  function ContributedTo(e: StopEntry, g: string): seq<string> {
    match Contribute(e)
    case Some(c) => if c.groupId == g then c.stops else []
    case None => []
  }

  /** Group ids in order of their first creation in the map (insertion order of the keys). */
  function GroupOrder(es: seq<StopEntry>): seq<string> {
    if es == [] then []
    else
      var prev := GroupOrder(es[..|es| - 1]);
      match Contribute(es[|es| - 1])
      case None => prev
      case Some(c) => if c.groupId in prev then prev else prev + [c.groupId]
  }

  /** All stops the entries append to group `g`, in configuration order. */
  function StopsFor(es: seq<StopEntry>, g: string): seq<string> {
    if es == [] then [] else StopsFor(es[..|es| - 1], g) + ContributedTo(es[|es| - 1], g)
  }

  /** The groups named by `keys`, in that order, keeping only those with stops. */
  function KeepNonEmpty(keys: seq<string>, es: seq<StopEntry>): seq<StopGroup> {
    if keys == [] then []
    else
      var g := keys[|keys| - 1];
      KeepNonEmpty(keys[..|keys| - 1], es) +
      (if StopsFor(es, g) != [] then [StopGroup(g, StopsFor(es, g))] else [])
  }

  /** Reference definition of the groups buildRequestBody emits. */
  function RequestGroups(es: seq<StopEntry>): seq<StopGroup> {
    KeepNonEmpty(GroupOrder(es), es)
  }

  /** `buildRequestBody`: fold the entries into an insertion-ordered map, then filter. */
  method BuildRequestBody(stopItems: seq<StopEntry>) returns (body: Body)
    ensures body.stopGroups == RequestGroups(stopItems)
  {
    var order: seq<string> := [];
    var stopGroupsMap: map<string, seq<string>> := map[];
    var i := 0;
    while i < |stopItems|
      invariant 0 <= i <= |stopItems|
      invariant order == GroupOrder(stopItems[..i])
      invariant forall g :: g in stopGroupsMap <==> g in order
      invariant forall g :: g in stopGroupsMap ==> stopGroupsMap[g] == StopsFor(stopItems[..i], g)
    {
      EntryStep(stopItems, i);
      ghost var prefix := stopItems[..i];
      forall g | g !in stopGroupsMap ensures StopsFor(prefix, g) == [] {
        UnseenGroupHasNoStops(prefix, g);
      }
      order, stopGroupsMap := AddEntry(order, stopGroupsMap, stopItems[i]);
      i := i + 1;
    }
    assert stopItems[..i] == stopItems;
    GroupOrderPrefixed(stopItems);
    var filtered := DropEmptyGroups(order, stopGroupsMap, stopItems);
    body := Body(filtered);
  }

  /** The loop body of buildRequestBody for one configuration item. */
  method AddEntry(order: seq<string>, stopGroupsMap: map<string, seq<string>>, item: StopEntry)
    returns (order': seq<string>, stopGroupsMap': map<string, seq<string>>)
    requires forall g :: g in stopGroupsMap <==> g in order
    ensures order' == match Contribute(item)
      case None => order
      case Some(c) => if c.groupId in order then order else order + [c.groupId]
    ensures forall g :: g in stopGroupsMap' <==> g in order'
    ensures forall g :: g in stopGroupsMap' ==>
      stopGroupsMap'[g] == (if g in stopGroupsMap then stopGroupsMap[g] else []) + ContributedTo(item, g)
  {
    order', stopGroupsMap' := order, stopGroupsMap;
    if item.stopIds.Some? && Truthy(item.stopGroupId) {
      var groupId := NormalizeId(item.stopGroupId, StopPlace).value;
      if groupId !in stopGroupsMap' {
        stopGroupsMap' := stopGroupsMap'[groupId := []];
        order' := order' + [groupId];
      }
      var stops := PushStops(stopGroupsMap'[groupId], item.stopIds.value);
      stopGroupsMap' := stopGroupsMap'[groupId := stops];
    } else if !Truthy(item.stopGroupId) {
      // skipped with a warning: missing stopGroupId
    } else if !Truthy(item.stopId) {
      // skipped with a warning: missing stopId
    } else {
      var groupId := NormalizeId(item.stopGroupId, StopPlace).value;
      var stopId := NormalizeId(item.stopId, Quay).value;
      if groupId !in stopGroupsMap' {
        stopGroupsMap' := stopGroupsMap'[groupId := []];
        order' := order' + [groupId];
      }
      stopGroupsMap' := stopGroupsMap'[groupId := stopGroupsMap'[groupId] + [stopId]];
    }
  }

  /** `Object.values(stopGroupsMap).filter(g => g.id && g.stops.length > 0)`. */
  method DropEmptyGroups(order: seq<string>, stopGroupsMap: map<string, seq<string>>, ghost es: seq<StopEntry>)
    returns (filtered: seq<StopGroup>)
    requires forall g :: g in order ==> g in stopGroupsMap && stopGroupsMap[g] == StopsFor(es, g)
    requires forall g :: g in order ==> g != ""
    ensures filtered == KeepNonEmpty(order, es)
  {
    filtered := [];
    var k := 0;
    while k < |order|
      invariant 0 <= k <= |order|
      invariant filtered == KeepNonEmpty(order[..k], es)
    {
      assert order[k] in order;
      var g := StopGroup(order[k], stopGroupsMap[order[k]]);
      ghost var next := KeepNonEmpty(order[..k + 1], es);
      assert order[..k + 1][..k] == order[..k] && order[..k + 1][k] == order[k];
      assert next == filtered + (if StopsFor(es, order[k]) != [] then [g] else []);
      assert g.id != "";
      if g.id != "" && |g.stops| > 0 {
        filtered := filtered + [g];
      }
      k := k + 1;
    }
    assert order[..k] == order;
  }

  /** The `stopIds.forEach` of a grouped entry: push each valid quay id onto the group's stops. */
  method PushStops(stops: seq<string>, rawIds: seq<RawId>) returns (r: seq<string>)
    ensures r == stops + NormalizeStops(rawIds)
  {
    r := stops;
    var j := 0;
    while j < |rawIds|
      invariant 0 <= j <= |rawIds|
      invariant r == stops + NormalizeStops(rawIds[..j])
    {
      assert rawIds[..j + 1][..j] == rawIds[..j];
      var stopId := NormalizeId(rawIds[j], Quay);
      if stopId.Some? {
        r := r + [stopId.value];
      }
      j := j + 1;
    }
    assert rawIds[..j] == rawIds;
  }

  /** How one more entry extends the group order and every group's stops. */
  lemma EntryStep(es: seq<StopEntry>, i: nat)
    requires i < |es|
    ensures GroupOrder(es[..i + 1]) ==
      match Contribute(es[i])
      case None => GroupOrder(es[..i])
      case Some(c) => if c.groupId in GroupOrder(es[..i]) then GroupOrder(es[..i]) else GroupOrder(es[..i]) + [c.groupId]
    ensures forall g :: StopsFor(es[..i + 1], g) == StopsFor(es[..i], g) + ContributedTo(es[i], g)
  {
    assert es[..i + 1][..i] == es[..i];
  }

  // ---------------------------------------------------------------------
  // normalizeId

  /** A normalized id is passed through unchanged when normalized again, as either kind. */
  lemma NormalizeIdIdempotent(id: RawId, kind: IdKind, other: IdKind)
    requires Truthy(id)
    ensures NormalizeId(Text(NormalizeId(id, kind).value), other) == NormalizeId(id, kind)
  {
    var s := NormalizeId(id, kind).value;
    assert s[..|NsrPrefix|] == NsrPrefix;
  }

  /** A bare identifier gets exactly `NSR:<kind>:` in front of it. */
  lemma {:induction false} NormalizeIdPrefixes(s: string, kind: IdKind)
    requires s != "" && !StartsWith(s, NsrPrefix)
    ensures NormalizeId(Text(s), kind) == Some(NsrPrefix + KindName(kind) + ":" + s)
    ensures |NormalizeId(Text(s), kind).value| == |s| + |KindName(kind)| + 5
  {
  }

  // ---------------------------------------------------------------------
  // Entry shapes

  /** A grouped entry ignores any `stopId` it also carries. */
  lemma GroupedIgnoresStopId(e: StopEntry, other: RawId)
    requires IsGrouped(e)
    ensures Contribute(e.(stopId := other)) == Contribute(e)
  {
  }

  /** An entry contributes nothing exactly when it is not grouped and lacks a group or stop id. */
  lemma SkippedEntries(e: StopEntry)
    ensures Contribute(e).None? <==> !IsGrouped(e) && (!Truthy(e.stopGroupId) || !Truthy(e.stopId))
  {
  }

  lemma {:induction false} NormalizeStopsAppend(a: seq<RawId>, b: seq<RawId>)
    ensures NormalizeStops(a + b) == NormalizeStops(a) + NormalizeStops(b)
    decreases |b|
  {
    if b == [] {
      assert a + b == a;
    } else {
      var last := b[|b| - 1];
      assert (a + b)[..|a + b| - 1] == a + b[..|b| - 1];
      NormalizeStopsAppend(a, b[..|b| - 1]);
    }
  }

  /** Inside a grouped entry each invalid stop id is skipped on its own; each valid one yields one quay. */
  lemma {:induction false} NormalizeStopsSkipsIndividually(a: seq<RawId>, x: RawId, b: seq<RawId>)
    ensures NormalizeStops(a + [x] + b) ==
      NormalizeStops(a) + (if Truthy(x) then [NormalizeId(x, Quay).value] else []) + NormalizeStops(b)
  {
    NormalizeStopsAppend(a + [x], b);
    NormalizeStopsAppend(a, [x]);
    assert [x][..0] == [];
  }

  /** Every stop a grouped entry yields carries the NSR prefix. */
  lemma {:induction false} NormalizeStopsPrefixed(raw: seq<RawId>)
    ensures forall s :: s in NormalizeStops(raw) ==> StartsWith(s, NsrPrefix)
  {
    if raw != [] {
      NormalizeStopsPrefixed(raw[..|raw| - 1]);
    }
  }

  // ---------------------------------------------------------------------
  // Merging and order

  /** Group ids in the map are unique. */
  lemma {:induction false} GroupOrderDistinct(es: seq<StopEntry>)
    ensures forall i, j :: 0 <= i < j < |GroupOrder(es)| ==> GroupOrder(es)[i] != GroupOrder(es)[j]
  {
    if es != [] {
      GroupOrderDistinct(es[..|es| - 1]);
    }
  }

  /** A group is in the map exactly when some entry contributed to it. */
  lemma {:induction false} GroupOrderMembers(es: seq<StopEntry>, g: string)
    ensures g in GroupOrder(es) <==>
      exists i :: 0 <= i < |es| && Contribute(es[i]).Some? && Contribute(es[i]).value.groupId == g
  {
    if es != [] {
      var prefix := es[..|es| - 1];
      GroupOrderMembers(prefix, g);
      if g in GroupOrder(prefix) {
        var i :| 0 <= i < |prefix| && Contribute(prefix[i]).Some? && Contribute(prefix[i]).value.groupId == g;
        assert es[i] == prefix[i];
      }
      if exists i :: 0 <= i < |es| && Contribute(es[i]).Some? && Contribute(es[i]).value.groupId == g {
        var i :| 0 <= i < |es| && Contribute(es[i]).Some? && Contribute(es[i]).value.groupId == g;
        if i < |prefix| {
          assert prefix[i] == es[i];
        }
      }
    }
  }

  /** Every group id in the map carries the NSR prefix, so none is empty. */
  lemma {:induction false} GroupOrderPrefixed(es: seq<StopEntry>)
    ensures forall g :: g in GroupOrder(es) ==> StartsWith(g, NsrPrefix) && g != ""
  {
    if es != [] {
      GroupOrderPrefixed(es[..|es| - 1]);
    }
  }

  /** Appending entries only appends groups: earlier first occurrences stay in front. */
  lemma {:induction false} GroupOrderPrefix(a: seq<StopEntry>, b: seq<StopEntry>)
    ensures GroupOrder(a) <= GroupOrder(a + b)
    decreases |b|
  {
    if b == [] {
      assert a + b == a;
    } else {
      assert (a + b)[..|a + b| - 1] == a + b[..|b| - 1];
      GroupOrderPrefix(a, b[..|b| - 1]);
    }
  }

  /** A group never created has no stops. */
  lemma {:induction false} UnseenGroupHasNoStops(es: seq<StopEntry>, g: string)
    requires g !in GroupOrder(es)
    ensures StopsFor(es, g) == []
  {
    if es != [] {
      var prefix := es[..|es| - 1];
      UnseenGroupHasNoStops(prefix, g);
    }
  }

  /** Stops of entries sharing a group id accumulate in configuration order, without deduplication. */
  lemma {:induction false} StopsForAppend(a: seq<StopEntry>, b: seq<StopEntry>, g: string)
    ensures StopsFor(a + b, g) == StopsFor(a, g) + StopsFor(b, g)
    decreases |b|
  {
    if b == [] {
      assert a + b == a;
    } else {
      var init, last := b[..|b| - 1], b[|b| - 1];
      assert (a + b)[..|a + b| - 1] == a + init;
      assert (a + b)[|a + b| - 1] == last;
      calc {
        StopsFor(a + b, g);
        StopsFor(a + init, g) + ContributedTo(last, g);
        { StopsForAppend(a, init, g); }
        StopsFor(a, g) + StopsFor(init, g) + ContributedTo(last, g);
        StopsFor(a, g) + StopsFor(b, g);
      }
    }
  }

  /** A simple entry followed by a grouped entry for the same group yield one group with both stop lists. */
  lemma SimpleThenGroupedMerge(simple: StopEntry, grouped: StopEntry)
    requires !IsGrouped(simple) && Truthy(simple.stopGroupId) && Truthy(simple.stopId)
    requires IsGrouped(grouped)
    requires NormalizeId(simple.stopGroupId, StopPlace) == NormalizeId(grouped.stopGroupId, StopPlace)
    requires NormalizeStops(grouped.stopIds.value) != []
    ensures RequestGroups([simple, grouped]) ==
      [StopGroup(NormalizeId(simple.stopGroupId, StopPlace).value,
                 [NormalizeId(simple.stopId, Quay).value] + NormalizeStops(grouped.stopIds.value))]
  {
    var es := [simple, grouped];
    var g := NormalizeId(simple.stopGroupId, StopPlace).value;
    var sid := NormalizeId(simple.stopId, Quay).value;
    EntryStep(es, 0);
    EntryStep(es, 1);
    assert es[..0] == [] && es[..2] == es;
    assert GroupOrder(es[..1]) == [g];
    assert GroupOrder(es) == [g];
    assert StopsFor(es[..1], g) == [sid];
    assert StopsFor(es, g) == [sid] + NormalizeStops(grouped.stopIds.value);
    assert [g][..0] == [];
    assert RequestGroups(es) == KeepNonEmpty([], es) + [StopGroup(g, StopsFor(es, g))];
  }

  // ---------------------------------------------------------------------
  // The emitted groups

  lemma {:induction false} KeepNonEmptyShape(keys: seq<string>, es: seq<StopEntry>)
    ensures forall i :: 0 <= i < |KeepNonEmpty(keys, es)| ==>
      KeepNonEmpty(keys, es)[i].id in keys &&
      KeepNonEmpty(keys, es)[i].stops == StopsFor(es, KeepNonEmpty(keys, es)[i].id) &&
      KeepNonEmpty(keys, es)[i].stops != []
    ensures forall g :: g in keys && StopsFor(es, g) != [] ==>
      exists i :: 0 <= i < |KeepNonEmpty(keys, es)| && KeepNonEmpty(keys, es)[i].id == g
  {
    if keys != [] {
      var prev := keys[..|keys| - 1];
      KeepNonEmptyShape(prev, es);
      var out := KeepNonEmpty(keys, es);
      assert KeepNonEmpty(prev, es) <= out;
      forall g | g in keys && StopsFor(es, g) != []
        ensures exists i :: 0 <= i < |out| && out[i].id == g
      {
        if g in prev {
          var i :| 0 <= i < |KeepNonEmpty(prev, es)| && KeepNonEmpty(prev, es)[i].id == g;
          assert out[i].id == g;
        } else {
          assert g == keys[|keys| - 1];
          assert out[|out| - 1].id == g;
        }
      }
    }
  }

  /**
   * Among distinct keys, a prefix `keys[..m]` of the keys selects exactly a
   * prefix of the emitted groups: order of the keys is kept in the output.
   */
  lemma {:induction false} KeepNonEmptyPrefix(keys: seq<string>, m: nat, es: seq<StopEntry>)
    requires m <= |keys|
    requires forall i, j :: 0 <= i < j < |keys| ==> keys[i] != keys[j]
    ensures KeepNonEmpty(keys[..m], es) <= KeepNonEmpty(keys, es)
    ensures forall p :: 0 <= p < |KeepNonEmpty(keys, es)| ==>
      (KeepNonEmpty(keys, es)[p].id in keys[..m] <==> p < |KeepNonEmpty(keys[..m], es)|)
    decreases |keys|
  {
    var out := KeepNonEmpty(keys, es);
    if m == |keys| {
      assert keys[..m] == keys;
      KeepNonEmptyShape(keys, es);
    } else {
      var prev := keys[..|keys| - 1];
      assert prev[..m] == keys[..m];
      KeepNonEmptyPrefix(prev, m, es);
      KeepNonEmptyShape(prev, es);
      var last := keys[|keys| - 1];
      assert last !in keys[..m];
      assert last !in prev;
      forall p | 0 <= p < |out|
        ensures out[p].id in keys[..m] <==> p < |KeepNonEmpty(keys[..m], es)|
      {
        if p >= |KeepNonEmpty(prev, es)| {
          assert out[p].id == last;
        } else {
          assert out[p] == KeepNonEmpty(prev, es)[p];
        }
      }
    }
  }

  /** Every emitted group has an NSR-prefixed id and exactly the (non-empty) stops configured for it. */
  lemma RequestGroupsValid(es: seq<StopEntry>)
    ensures forall i :: 0 <= i < |RequestGroups(es)| ==>
      StartsWith(RequestGroups(es)[i].id, NsrPrefix) &&
      RequestGroups(es)[i].stops != [] &&
      RequestGroups(es)[i].stops == StopsFor(es, RequestGroups(es)[i].id)
  {
    KeepNonEmptyShape(GroupOrder(es), es);
    GroupOrderPrefixed(es);
  }

  /** Selecting from distinct keys emits each id at most once. */
  lemma {:induction false} KeepNonEmptyDistinct(keys: seq<string>, es: seq<StopEntry>)
    requires forall i, j :: 0 <= i < j < |keys| ==> keys[i] != keys[j]
    ensures forall i, j :: 0 <= i < j < |KeepNonEmpty(keys, es)| ==>
      KeepNonEmpty(keys, es)[i].id != KeepNonEmpty(keys, es)[j].id
  {
    if keys != [] {
      var prev, last := keys[..|keys| - 1], keys[|keys| - 1];
      KeepNonEmptyDistinct(prev, es);
      KeepNonEmptyShape(prev, es);
      assert last !in prev;
      var before := KeepNonEmpty(prev, es);
      var out := KeepNonEmpty(keys, es);
      forall i, j | 0 <= i < j < |out| ensures out[i].id != out[j].id {
        if j >= |before| {
          assert out[i] == before[i];
          assert out[i].id in prev;
        } else {
          assert out[i] == before[i] && out[j] == before[j];
        }
      }
    }
  }

  /** No group id is emitted twice. */
  lemma RequestGroupsDistinct(es: seq<StopEntry>)
    ensures forall i, j :: 0 <= i < j < |RequestGroups(es)| ==> RequestGroups(es)[i].id != RequestGroups(es)[j].id
  {
    GroupOrderDistinct(es);
    KeepNonEmptyDistinct(GroupOrder(es), es);
  }

  /** A group id is emitted exactly when the configuration gives it at least one stop. */
  lemma RequestGroupsComplete(es: seq<StopEntry>, g: string)
    ensures (exists i :: 0 <= i < |RequestGroups(es)| && RequestGroups(es)[i].id == g) <==> StopsFor(es, g) != []
  {
    var out := RequestGroups(es);
    KeepNonEmptyShape(GroupOrder(es), es);
    if StopsFor(es, g) != [] {
      if g !in GroupOrder(es) {
        UnseenGroupHasNoStops(es, g);
      }
      assert exists i :: 0 <= i < |out| && out[i].id == g;
    }
    if exists i :: 0 <= i < |out| && out[i].id == g {
      var i :| 0 <= i < |out| && out[i].id == g;
      assert out[i].stops == StopsFor(es, g);
    }
  }

  /** Groups appear in the order in which the configuration first names them. */
  lemma FirstSeenFirst(es: seq<StopEntry>, n: nat, p: nat, q: nat)
    requires n <= |es|
    requires p < |RequestGroups(es)| && q < |RequestGroups(es)|
    requires RequestGroups(es)[p].id in GroupOrder(es[..n])
    requires RequestGroups(es)[q].id !in GroupOrder(es[..n])
    ensures p < q
  {
    var keys := GroupOrder(es);
    var m := |GroupOrder(es[..n])|;
    GroupOrderPrefix(es[..n], es[n..]);
    assert es[..n] + es[n..] == es;
    assert keys[..m] == GroupOrder(es[..n]);
    GroupOrderDistinct(es);
    KeepNonEmptyPrefix(keys, m, es);
  }

  /** An entry that contributes nothing leaves the request unchanged. */
  lemma SkippedEntryNoEffect(es: seq<StopEntry>, e: StopEntry)
    requires Contribute(e).None?
    ensures RequestGroups(es + [e]) == RequestGroups(es)
  {
    assert (es + [e])[..|es|] == es;
    forall g ensures StopsFor(es + [e], g) == StopsFor(es, g) {
    }
    KeepNonEmptyCongruent(GroupOrder(es), es + [e], es);
  }

  lemma {:induction false} KeepNonEmptyCongruent(keys: seq<string>, es: seq<StopEntry>, fs: seq<StopEntry>)
    requires forall g :: StopsFor(es, g) == StopsFor(fs, g)
    ensures KeepNonEmpty(keys, es) == KeepNonEmpty(keys, fs)
  {
    if keys != [] {
      KeepNonEmptyCongruent(keys[..|keys| - 1], es, fs);
    }
  }
}
