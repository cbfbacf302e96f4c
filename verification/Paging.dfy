/** Listing points page by page: the server's do_list
 *  (rtdbd/src/rtdbd.c:447-473) and the monitor's list_points
 *  (tools/rtdb-monitor/rtdb_client.py:216-245), on a registry that does not
 *  change meanwhile.
 *
 * An offset is a point id for the server, while the client advances it by the
 * number of entries received; pages may overlap.
 */
module Paging {
  import opened Common
  import opened Layout
  import opened NameIndex

  const LIST_CHUNK: nat := 1024
  const PARTITION_ALL: u32 := 0xFFFF_FFFF

  /** The points a listing is about. */
  predicate Listed(pts: seq<Point>, filter: u32, id: nat) {
    id < |pts| && pts[id].name != [] && (filter == PARTITION_ALL || pts[id].partition == filter)
  }

  /** The first `room` listed ids from id on. */
  function PageFrom(pts: seq<Point>, filter: u32, id: nat, room: nat): (page: seq<nat>)
    ensures |page| <= room
    ensures forall k :: 0 <= k < |page| ==> page[k] >= id && Listed(pts, filter, page[k])
    decreases |pts| - id
  {
    if id >= |pts| || room == 0 then []
    else if Listed(pts, filter, id) then [id] + PageFrom(pts, filter, id + 1, room - 1)
    else PageFrom(pts, filter, id + 1, room)
  }

  function Capacity(max: u32): (cap: nat)
    ensures 0 < cap <= LIST_CHUNK
  {
    if max == 0 || max > LIST_CHUNK then LIST_CHUNK else max
  }

  /** do_list */
  function Page(pts: seq<Point>, filter: u32, max: u32, offset: nat): seq<nat> {
    PageFrom(pts, filter, offset, Capacity(max))
  }

  method DoList(pts: seq<Point>, filter: u32, max: u32, offset: nat) returns (page: seq<nat>)
    ensures page == Page(pts, filter, max, offset)
  {
    page := [];
    if offset >= |pts| {
      return;
    }
    var cap := if max == 0 then LIST_CHUNK else max;
    if cap > LIST_CHUNK {
      cap := LIST_CHUNK;
    }
    var id := offset;
    while id < |pts| && |page| < cap
      invariant offset <= id <= |pts| && |page| <= cap
      invariant page + PageFrom(pts, filter, id, cap - |page|) == PageFrom(pts, filter, offset, cap)
    {
      if Listed(pts, filter, id) {
        assert (page + [id]) + PageFrom(pts, filter, id + 1, cap - |page| - 1)
            == page + ([id] + PageFrom(pts, filter, id + 1, cap - |page| - 1));
        page := page + [id];
      }
      id := id + 1;
    }
    assert page + [] == page;
  }

  /** All ids the client collects from an offset on. */
  function ListFrom(pts: seq<Point>, filter: u32, max: u32, offset: nat): seq<nat>
    decreases |pts| - offset
  {
    var page := Page(pts, filter, max, offset);
    if page == [] then []
    else if |page| < max then page
    else page + ListFrom(pts, filter, max, offset + |page|)
  }

  lemma ListFromStep(pts: seq<Point>, filter: u32, max: u32, offset: nat, out: seq<nat>)
    ensures var page := Page(pts, filter, max, offset);
            && (page != [] ==> offset < |pts|)
            && out + ListFrom(pts, filter, max, offset)
               == if page == [] then out
                  else if |page| < max then out + page
                  else (out + page) + ListFrom(pts, filter, max, offset + |page|)
  {
    assert out + [] == out;
  }

  method ListPoints(pts: seq<Point>, filter: u32, max: u32) returns (out: seq<nat>)
    ensures out == ListFrom(pts, filter, max, 0)
  {
    out := [];
    var offset := 0;
    while true
      invariant out + ListFrom(pts, filter, max, offset) == ListFrom(pts, filter, max, 0)
      decreases |pts| - offset
    {
      var page := DoList(pts, filter, max, offset);
      ListFromStep(pts, filter, max, offset, out);
      if page == [] {
        break;
      }
      out := out + page;
      if |page| < max {
        break;
      }
      offset := offset + |page|;
    }
  }

  // ---- Pages ----

  /** The last entry of a page is at least as far from the start as the page
   *  is long. */
  lemma {:induction false} PageReaches(pts: seq<Point>, filter: u32, id: nat, room: nat)
    ensures var page := PageFrom(pts, filter, id, room);
            page != [] ==> page[|page| - 1] + 1 >= id + |page|
    decreases |pts| - id
  {
    if id < |pts| && room > 0 {
      PageReaches(pts, filter, id + 1, if Listed(pts, filter, id) then room - 1 else room);
    }
  }

  /** A listed point is left out of a page only when the page is full and every
   *  entry of it comes before that point. */
  lemma {:induction false} PageLeavesOut(pts: seq<Point>, filter: u32, id: nat, room: nat, x: nat)
    requires id <= x && Listed(pts, filter, x) && x !in PageFrom(pts, filter, id, room)
    ensures var page := PageFrom(pts, filter, id, room);
            |page| == room && forall k :: 0 <= k < room ==> page[k] < x
    decreases |pts| - id
  {
    if room > 0 {
      var rest := PageFrom(pts, filter, id + 1, if Listed(pts, filter, id) then room - 1 else room);
      if Listed(pts, filter, id) {
        var page := PageFrom(pts, filter, id, room);
        assert page == [id] + rest;
        assert x != page[0] && forall y :: y in rest ==> y in page;
        PageLeavesOut(pts, filter, id + 1, room - 1, x);
        assert forall k :: 0 < k < room ==> page[k] == rest[k - 1];
      } else {
        PageLeavesOut(pts, filter, id + 1, room, x);
      }
    }
  }

  predicate Increasing(ids: seq<nat>) {
    forall i, j :: 0 <= i < j < |ids| ==> ids[i] < ids[j]
  }

  lemma {:induction false} PageIncreasing(pts: seq<Point>, filter: u32, id: nat, room: nat)
    ensures Increasing(PageFrom(pts, filter, id, room))
    decreases |pts| - id
  {
    if id < |pts| && room > 0 {
      if Listed(pts, filter, id) {
        PageIncreasing(pts, filter, id + 1, room - 1);
        IncreasingCons(id, PageFrom(pts, filter, id + 1, room - 1));
      } else {
        PageIncreasing(pts, filter, id + 1, room);
      }
    }
  }

  lemma IncreasingCons(first: nat, rest: seq<nat>)
    requires Increasing(rest) && forall k :: 0 <= k < |rest| ==> first < rest[k]
    ensures Increasing([first] + rest)
  {
    var all := [first] + rest;
    assert forall k :: 0 < k < |all| ==> all[k] == rest[k - 1];
  }

  /** With a page size of at most 1024, or 0, no listed point is missed. */
  lemma {:induction false} ListCovers(pts: seq<Point>, filter: u32, max: u32, offset: nat, x: nat)
    requires max <= LIST_CHUNK && offset <= x && Listed(pts, filter, x)
    ensures x in ListFrom(pts, filter, max, offset)
    decreases |pts| - offset
  {
    var page := Page(pts, filter, max, offset);
    PageReaches(pts, filter, offset, Capacity(max));
    if x !in page {
      PageLeavesOut(pts, filter, offset, Capacity(max), x);
      assert page[|page| - 1] < x;
      ListCovers(pts, filter, max, offset + |page|, x);
    }
  }

  lemma {:induction false} ListIsListed(pts: seq<Point>, filter: u32, max: u32, offset: nat, x: nat)
    requires x in ListFrom(pts, filter, max, offset)
    ensures Listed(pts, filter, x)
    decreases |pts| - offset
  {
    var page := Page(pts, filter, max, offset);
    if x !in page {
      ListIsListed(pts, filter, max, offset + |page|, x);
    }
  }

  /** All listed points, in order. */
  function AllListed(pts: seq<Point>, filter: u32): seq<nat> {
    PageFrom(pts, filter, 0, |pts|)
  }

  lemma {:induction false} PrefixOfAll(pts: seq<Point>, filter: u32, id: nat, room: nat, more: nat)
    requires room <= more
    ensures var a, b := PageFrom(pts, filter, id, room), PageFrom(pts, filter, id, more);
            |a| == (if |b| <= room then |b| else room) && a == b[..|a|]
    decreases |pts| - id
  {
    if id < |pts| && room > 0 {
      if Listed(pts, filter, id) {
        PrefixOfAll(pts, filter, id + 1, room - 1, more - 1);
      } else {
        PrefixOfAll(pts, filter, id + 1, room, more);
      }
    }
  }

  lemma {:induction false} PageSize(pts: seq<Point>, filter: u32, id: nat, room: nat)
    requires id <= |pts|
    ensures |PageFrom(pts, filter, id, room)| <= |pts| - id
    decreases |pts| - id
  {
    if id < |pts| && room > 0 {
      PageSize(pts, filter, id + 1, if Listed(pts, filter, id) then room - 1 else room);
    }
  }

  lemma {:induction false} WideEnoughPage(pts: seq<Point>, filter: u32, id: nat, room: nat, x: nat)
    requires |pts| <= id + room && id <= x && Listed(pts, filter, x)
    ensures x in PageFrom(pts, filter, id, room)
    decreases |pts| - id
  {
    var rest := PageFrom(pts, filter, id + 1, if Listed(pts, filter, id) then room - 1 else room);
    if id < x {
      WideEnoughPage(pts, filter, id + 1, if Listed(pts, filter, id) then room - 1 else room, x);
      assert x in rest;
    }
  }

  lemma AllListedIsAll(pts: seq<Point>, filter: u32, x: nat)
    ensures x in AllListed(pts, filter) <==> Listed(pts, filter, x)
  {
    if Listed(pts, filter, x) {
      WideEnoughPage(pts, filter, 0, |pts|, x);
    }
  }

  /** A page written out: the named points of the partition, or of all of them
   *  for 0xFFFFFFFF, from the offset on, in order, and as many as there are or
   *  as asked for; 0 and more than 1024 stand for 1024. */
  lemma PageIsExact(pts: seq<Point>, filter: u32, max: u32, offset: nat)
    ensures var page, cap := Page(pts, filter, max, offset), if max == 0 || max > 1024 then 1024 else max;
            && |page| <= cap && Increasing(page)
            && (forall k :: 0 <= k < |page| ==> offset <= page[k] && IsListed(pts, filter, page[k]))
            && forall x: nat :: offset <= x && IsListed(pts, filter, x) && x !in page ==>
                 |page| == cap && forall k :: 0 <= k < cap ==> page[k] < x
  {
    var cap := Capacity(max);
    PageIncreasing(pts, filter, offset, cap);
    forall x: nat | offset <= x && Listed(pts, filter, x) && x !in Page(pts, filter, max, offset)
      ensures var page := Page(pts, filter, max, offset);
              |page| == cap && forall k :: 0 <= k < cap ==> page[k] < x
    {
      PageLeavesOut(pts, filter, offset, cap, x);
    }
  }

  /** A named point of the partition, or of any for 0xFFFFFFFF. */
  predicate IsListed(pts: seq<Point>, filter: u32, id: nat) {
    id < |pts| && pts[id].name != [] && (filter == 0xFFFF_FFFF || pts[id].partition == filter)
  }

  /** The client gets only named points of the partition asked for; it gets all
   *  of them exactly when the page size is at most what the server packs into
   *  one page (0 asks for that limit), or when there are no more than that. */
  lemma ListingCompleteIff(pts: seq<Point>, filter: u32, max: u32)
    ensures forall x: nat :: x in ListFrom(pts, filter, max, 0) ==> IsListed(pts, filter, x)
    ensures (forall x: nat :: IsListed(pts, filter, x) ==> x in ListFrom(pts, filter, max, 0))
            <==> max <= 1024 || |ListedIds(pts, filter)| <= 1024
  {
    forall x: nat | x in ListFrom(pts, filter, max, 0)
      ensures IsListed(pts, filter, x)
    {
      ListIsListed(pts, filter, max, 0, x);
    }
    if max <= LIST_CHUNK {
      forall x: nat | Listed(pts, filter, x)
        ensures x in ListFrom(pts, filter, max, 0)
      {
        ListCovers(pts, filter, max, 0, x);
      }
    } else {
      OversizedPageIsAll(pts, filter, max);
      AllListedCount(pts, filter);
    }
    assert forall x: nat :: IsListed(pts, filter, x) <==> Listed(pts, filter, x);
  }

  ghost function ListedIds(pts: seq<Point>, filter: u32): set<nat> {
    set x: nat | x < |pts| && IsListed(pts, filter, x)
  }

  lemma AllListedCount(pts: seq<Point>, filter: u32)
    ensures |AllListed(pts, filter)| == |ListedIds(pts, filter)|
  {
    var all := AllListed(pts, filter);
    PageIncreasing(pts, filter, 0, |pts|);
    IncreasingCount(all);
    assert Elements(all) == ListedIds(pts, filter) by {
      forall x: nat
        ensures x in all <==> x in ListedIds(pts, filter)
      {
        AllListedIsAll(pts, filter, x);
      }
    }
  }

  ghost function Elements(ids: seq<nat>): (s: set<nat>)
    ensures forall x :: x in s <==> x in ids
  {
    if ids == [] then {} else Elements(ids[..|ids| - 1]) + {ids[|ids| - 1]}
  }

  lemma {:induction false} IncreasingCount(ids: seq<nat>)
    requires Increasing(ids)
    ensures |Elements(ids)| == |ids|
    decreases |ids|
  {
    if ids != [] {
      IncreasingCount(ids[..|ids| - 1]);
      assert ids[|ids| - 1] !in ids[..|ids| - 1];
    }
  }

  lemma OversizedPageIsAll(pts: seq<Point>, filter: u32, max: u32)
    requires max > LIST_CHUNK
    ensures (forall x: nat :: Listed(pts, filter, x) ==> x in ListFrom(pts, filter, max, 0))
            <==> |AllListed(pts, filter)| <= LIST_CHUNK
  {
    var page := Page(pts, filter, max, 0);
    var all := AllListed(pts, filter);
    assert ListFrom(pts, filter, max, 0) == page;
    forall x: nat
      ensures x in all <==> Listed(pts, filter, x)
    {
      AllListedIsAll(pts, filter, x);
    }
    if |pts| <= LIST_CHUNK {
      PrefixOfAll(pts, filter, 0, |pts|, LIST_CHUNK);
      PageSize(pts, filter, 0, LIST_CHUNK);
      PageSize(pts, filter, 0, |pts|);
      assert page == all;
    } else {
      PrefixOfAll(pts, filter, 0, LIST_CHUNK, |pts|);
      if |all| > LIST_CHUNK {
        PageIncreasing(pts, filter, 0, |pts|);
        var x := all[LIST_CHUNK];
        assert x in all && x !in page;
      }
    }
  }
}
