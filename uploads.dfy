/**
 * The commission image uploads of app.py: the `image-order` form field is
 * parsed into upload positions, and each position is matched against the
 * non-empty uploads; a matched upload is stored once, with its position in
 * the order list as its `display_order`. Editing a commission reorders
 * existing images by id and appends new uploads after them.
 */
module Uploads {
  import opened Options
  import opened Strings
  import opened Numerals
  import opened Dates
  import opened Naming

  /** `list(range(n))`. */
  function Range(n: nat): (r: seq<int>)
    ensures |r| == n && forall k :: 0 <= k < n ==> r[k] == k
  {
    seq(n, k => k)
  }

  /** Every item parses as an integer. */
  predicate AllIntegers(parts: seq<string>) {
    forall k :: 0 <= k < |parts| ==> ParseInt(parts[k]).Some?
  }

  /** The values of `results` when every one is present, `None` as soon as one is missing. */
  function Collect(results: seq<Option<int>>): (r: Option<seq<int>>)
    ensures r.Some? <==> forall k :: 0 <= k < |results| ==> results[k].Some?
    ensures r.Some? ==> |r.value| == |results| && forall k :: 0 <= k < |results| ==> results[k] == Some(r.value[k])
  {
    if results == [] then Some([])
    else
      var tail := Collect(results[1..]);
      assert forall k :: 0 < k < |results| ==> results[1..][k - 1] == results[k];
      if results[0].None? || tail.None? then None
      else
        var r := [results[0].value] + tail.value;
        assert forall k :: 0 < k < |results| ==> r[k] == tail.value[k - 1];
        Some(r)
  }

  /** `[int(x) for x in parts]`: `None` when one of the conversions raises `ValueError`. */
  function ParseAll(parts: seq<string>): (r: Option<seq<int>>)
    ensures r.Some? <==> AllIntegers(parts)
    ensures r.Some? ==> |r.value| == |parts| && forall k :: 0 <= k < |parts| ==> ParseInt(parts[k]) == Some(r.value[k])
  {
    var results := seq(|parts|, k requires 0 <= k < |parts| => ParseInt(parts[k]));
    assert forall k :: 0 <= k < |parts| ==> results[k] == ParseInt(parts[k]);
    Collect(results)
  }

  /**
   * `ordered_indices` (app.py:507-519): the comma-separated integers of the
   * `image-order` field, or every upload position in turn when the field is
   * empty or one of its items is not an integer.
   */
  function OrderedIndices(imageOrder: string, uploadCount: nat): (indices: seq<int>)
    ensures imageOrder == "" ==> indices == Range(uploadCount)
  {
    if imageOrder == "" then Range(uploadCount)
    else match ParseAll(Split(imageOrder, ','))
      case Some(indices) => indices
      case None => Range(uploadCount)
  }

  /** The items of an order list as the browser writes them. */
  function Rendered(indices: seq<int>): seq<string> {
    seq(|indices|, k requires 0 <= k < |indices| => IntToString(indices[k]))
  }

  /** What a browser sends for an order list: the integers joined by commas. */
  function OrderField(indices: seq<int>): string {
    Join(Rendered(indices), ',')
  }

  /** Each rendered item parses back to its integer and holds no comma. */
  lemma ParseAllRendered(indices: seq<int>)
    ensures forall k :: 0 <= k < |indices| ==> ',' !in Rendered(indices)[k]
    ensures ParseAll(Rendered(indices)) == Some(indices)
  {
    var parts := Rendered(indices);
    forall k | 0 <= k < |parts| ensures ',' !in parts[k] && ParseInt(parts[k]) == Some(indices[k]) {
      IntToStringExclude(indices[k], ',');
      ParseIntOfIntToString(indices[k]);
    }
    var parsed := ParseAll(parts);
    assert parsed.Some?;
    assert |parsed.value| == |indices|;
    forall k | 0 <= k < |indices| ensures parsed.value[k] == indices[k] {
      assert ParseInt(parts[k]) == Some(parsed.value[k]);
    }
    assert parsed.value == indices;
  }

  /** A non-empty order list survives the form round trip unchanged. */
  lemma OrderedIndicesOfOrderField(indices: seq<int>, uploadCount: nat)
    requires |indices| > 0
    ensures OrderedIndices(OrderField(indices), uploadCount) == indices
  {
    var parts := Rendered(indices);
    ParseAllRendered(indices);
    SplitJoin(parts, ',');
    assert parts[0] == IntToString(indices[0]);
    JoinHead(parts, ',');
  }

  lemma JoinHead(parts: seq<string>, sep: char)
    requires |parts| > 0 && parts[0] != ""
    ensures Join(parts, sep) != ""
  {
    if |parts| > 1 {
      assert |Join(parts, sep)| >= |parts[0]|;
    }
  }

  /** An order field with an item that is not an integer falls back to upload order. */
  lemma OrderedIndicesFallback(imageOrder: string, uploadCount: nat, k: nat)
    requires k < |Split(imageOrder, ',')| && ParseInt(Split(imageOrder, ',')[k]).None?
    ensures OrderedIndices(imageOrder, uploadCount) == Range(uploadCount)
  {
  }

  // ---------------------------------------------------------------------
  // The uploads that carry a file

  /** `(i, image)` of `image_list`; only the file name of an upload is modelled. */
  datatype Candidate = Candidate(index: nat, filename: string)

  predicate Increasing(list: seq<Candidate>) {
    forall a, b :: 0 <= a < b < |list| ==> list[a].index < list[b].index
  }

  /**
   * The uploads with a non-empty file name, with their positions, in upload
   * order. An upload is `None` when the browser sent no file name.
   */
  function Candidates(uploads: seq<Option<string>>): (list: seq<Candidate>)
    ensures forall c :: c in list ==> c.index < |uploads| && Truthy(uploads[c.index]) && c.filename == uploads[c.index].value
    ensures forall i :: 0 <= i < |uploads| && Truthy(uploads[i]) ==> Candidate(i, uploads[i].value) in list
    ensures Increasing(list)
  {
    if uploads == [] then []
    else
      var n := |uploads| - 1;
      var init := Candidates(uploads[..n]);
      assert forall i :: 0 <= i < n ==> uploads[..n][i] == uploads[i];
      init + (if Truthy(uploads[n]) then [Candidate(n, uploads[n].value)] else [])
  }

  /** The loop that builds `image_list` (app.py:531-534). */
  method BuildImageList(uploads: seq<Option<string>>) returns (imageList: seq<Candidate>)
    ensures imageList == Candidates(uploads)
  {
    imageList := [];
    for i := 0 to |uploads|
      invariant imageList == Candidates(uploads[..i])
    {
      assert uploads[..i + 1][..i] == uploads[..i];
      if Truthy(uploads[i]) {
        imageList := imageList + [Candidate(i, uploads[i].value)];
      }
    }
    assert uploads[..|uploads|] == uploads;
  }

  /** The candidates whose position is not yet in `used`. */
  function Remaining(list: seq<Candidate>, used: seq<int>): (r: seq<Candidate>)
    ensures |r| <= |list|
  {
    if list == [] then []
    else (if list[0].index as int in used then [] else [list[0]]) + Remaining(list[1..], used)
  }

  /** `Remaining` keeps exactly the candidates whose position is unused. */
  lemma {:induction false} RemainingMembers(list: seq<Candidate>, used: seq<int>, c: Candidate)
    ensures c in Remaining(list, used) <==> c in list && c.index as int !in used
  {
    if list != [] {
      RemainingMembers(list[1..], used, c);
      assert list == [list[0]] + list[1..];
    }
  }

  lemma {:induction false} RemainingIncreasing(list: seq<Candidate>, used: seq<int>)
    requires Increasing(list)
    ensures Increasing(Remaining(list, used))
  {
    if list != [] {
      var tail := list[1..];
      assert Increasing(tail);
      RemainingIncreasing(tail, used);
      var rest := Remaining(tail, used);
      forall c | c in rest ensures list[0].index < c.index {
        RemainingMembers(tail, used, c);
        var k :| 0 <= k < |tail| && tail[k] == c;
        assert list[k + 1] == c;
      }
      if list[0].index as int !in used {
        var r := [list[0]] + rest;
        forall a, b | 0 <= a < b < |r| ensures r[a].index < r[b].index {
          assert r[b] == rest[b - 1];
          assert r[b] in rest;
          if a > 0 {
            assert r[a] == rest[a - 1];
          }
        }
      } else {
        assert Remaining(list, used) == rest;
      }
    }
  }

  lemma {:induction false} RemainingNone(list: seq<Candidate>)
    ensures Remaining(list, []) == list
  {
    if list != [] {
      RemainingNone(list[1..]);
    }
  }

  /** Marking one more position as used takes out exactly the candidates with that position. */
  lemma {:induction false} RemainingExtend(list: seq<Candidate>, used: seq<int>, u: int)
    ensures Remaining(list, used + [u]) == Remaining(Remaining(list, used), [u])
  {
    if list != [] {
      var head, tail := list[0], list[1..];
      RemainingExtend(tail, used, u);
      var rest := Remaining(tail, used);
      if head.index as int in used {
        assert head.index as int in used + [u];
        assert Remaining(list, used) == rest;
        assert Remaining(list, used + [u]) == Remaining(tail, used + [u]);
      } else {
        var r := [head] + rest;
        assert Remaining(list, used) == r;
        assert r[1..] == rest;
        if head.index as int == u {
          assert Remaining(list, used + [u]) == Remaining(tail, used + [u]);
          assert Remaining(r, [u]) == Remaining(rest, [u]);
        } else {
          assert head.index as int !in used + [u];
          assert Remaining(list, used + [u]) == [head] + Remaining(tail, used + [u]);
          assert Remaining(r, [u]) == [head] + Remaining(rest, [u]);
        }
      }
    }
  }

  /** In an increasing list, taking out the one entry at position `u` is `pop(idx)`. */
  lemma {:induction false} RemainingPop(list: seq<Candidate>, idx: nat, u: int)
    requires Increasing(list) && idx < |list| && list[idx].index == u
    ensures Remaining(list, [u]) == list[..idx] + list[idx + 1..]
  {
    var head, tail := list[0], list[1..];
    assert Increasing(tail);
    if idx == 0 {
      RemainingPopFirst(list, u);
    } else {
      assert head.index < list[idx].index;
      assert Remaining(list, [u]) == [head] + Remaining(tail, [u]);
      RemainingPop(tail, idx - 1, u);
      assert tail[..idx - 1] + tail[idx..] == list[1..idx] + list[idx + 1..];
      assert list[..idx] == [head] + list[1..idx];
    }
  }

  lemma RemainingPopFirst(list: seq<Candidate>, u: int)
    requires Increasing(list) && |list| > 0 && list[0].index == u
    ensures Remaining(list, [u]) == list[1..]
  {
    var tail := list[1..];
    assert Remaining(list, [u]) == Remaining(tail, [u]);
    forall k | 0 <= k < |tail| ensures tail[k].index as int !in [u] {
      assert tail[k] == list[k + 1];
    }
    RemainingUnused(tail, [u]);
  }

  lemma {:induction false} RemainingUnused(list: seq<Candidate>, used: seq<int>)
    requires forall k :: 0 <= k < |list| ==> list[k].index as int !in used
    ensures Remaining(list, used) == list
  {
    if list != [] {
      var tail := list[1..];
      assert forall k :: 0 <= k < |tail| ==> tail[k] == list[k + 1];
      RemainingUnused(tail, used);
    }
  }

  // ---------------------------------------------------------------------
  // Storing the matched uploads

  /** An upload matched to a display order; `filename` is the name the browser sent. */
  datatype Match = Match(upload: nat, displayOrder: nat, filename: string)

  /**
   * What position `p` of the order list adds: the upload it names, with
   * display order `p`, when that upload exists, has a file name and was not
   * named at an earlier position; nothing otherwise.
   */
  function MatchAt(order: seq<int>, p: nat, uploads: seq<Option<string>>): seq<Match>
    requires p < |order|
  {
    var u := order[p];
    if 0 <= u < |uploads| && Truthy(uploads[u]) && u !in order[..p]
    then [Match(u, p, uploads[u].value)]
    else []
  }

  /** The uploads an order list stores, position by position. */
  function Matches(order: seq<int>, uploads: seq<Option<string>>): seq<Match> {
    if order == [] then []
    else Matches(order[..|order| - 1], uploads) + MatchAt(order, |order| - 1, uploads)
  }

  lemma MatchesStep(order: seq<int>, p: nat, uploads: seq<Option<string>>)
    requires p < |order|
    ensures Matches(order[..p + 1], uploads) == Matches(order[..p], uploads) + MatchAt(order, p, uploads)
  {
    var prefix := order[..p + 1];
    assert prefix[..p] == order[..p];
    assert prefix[p] == order[p];
    assert MatchAt(prefix, p, uploads) == MatchAt(order, p, uploads);
  }

  /** The inner `for idx, (i, image) in enumerate(image_list)` search, up to its `break`. */
  method FindCandidate(imageList: seq<Candidate>, u: int) returns (idx: nat)
    ensures idx <= |imageList|
    ensures idx < |imageList| ==> imageList[idx].index == u
    ensures forall k :: 0 <= k < idx ==> imageList[k].index != u
  {
    idx := 0;
    while idx < |imageList| && imageList[idx].index != u
      invariant idx <= |imageList|
      invariant forall k :: 0 <= k < idx ==> imageList[k].index != u
    {
      idx := idx + 1;
    }
  }

  /**
   * One step of the matching loop: the search finds a candidate exactly when
   * position `u` names an unused upload with a file, and popping it leaves
   * the candidates of the still unused positions.
   */
  lemma MatchStep(uploads: seq<Option<string>>, used: seq<int>, u: int, idx: nat)
    requires var list := Remaining(Candidates(uploads), used);
      && idx <= |list|
      && (idx < |list| ==> list[idx].index == u)
      && (forall k :: 0 <= k < idx ==> list[k].index != u)
    ensures var list := Remaining(Candidates(uploads), used);
      && (idx < |list| <==> 0 <= u < |uploads| && Truthy(uploads[u]) && u !in used)
      && (idx < |list| ==> list[idx] == Candidate(u, uploads[u].value)
                           && Remaining(Candidates(uploads), used + [u]) == list[..idx] + list[idx + 1..])
      && (idx == |list| ==> Remaining(Candidates(uploads), used + [u]) == list)
  {
    var candidates := Candidates(uploads);
    var list := Remaining(candidates, used);
    RemainingExtend(candidates, used, u);
    if idx < |list| {
      var c := list[idx];
      RemainingMembers(candidates, used, c);
      RemainingIncreasing(candidates, used);
      RemainingPop(list, idx, u);
    } else {
      assert forall k :: 0 <= k < |list| ==> list[k].index as int !in [u];
      RemainingUnused(list, [u]);
      if 0 <= u < |uploads| && Truthy(uploads[u]) && u !in used {
        RemainingMembers(candidates, used, Candidate(u, uploads[u].value));
        assert false;
      }
    }
  }

  /** The outcome of the search at position `p`, in terms of the definitions. */
  lemma MatchOutcome(order: seq<int>, p: nat, uploads: seq<Option<string>>, imageList: seq<Candidate>, idx: nat)
    requires p < |order|
    requires imageList == Remaining(Candidates(uploads), order[..p])
    requires idx <= |imageList|
    requires idx < |imageList| ==> imageList[idx].index == order[p]
    requires forall k :: 0 <= k < idx ==> imageList[k].index != order[p]
    ensures idx < |imageList| ==>
      && MatchAt(order, p, uploads) == [Match(imageList[idx].index, p, imageList[idx].filename)]
      && Remaining(Candidates(uploads), order[..p + 1]) == imageList[..idx] + imageList[idx + 1..]
    ensures idx == |imageList| ==>
      && MatchAt(order, p, uploads) == []
      && Remaining(Candidates(uploads), order[..p + 1]) == imageList
  {
    var u := order[p];
    MatchStep(uploads, order[..p], u, idx);
    assert order[..p + 1] == order[..p] + [u];
  }

  /**
   * What the loop body needs from outside: the commission id, whether
   * watermarking was requested, and, for each upload stored, the time
   * `datetime.now()` reads, the UUID `uuid4()` draws and whether
   * `add_watermark` succeeds, indexed by the number that goes into the file
   * name; `secure` is `secure_filename`.
   */
  datatype Env = Env(commissionId: int, watermark: bool, clock: nat -> Timestamp, uuid: nat -> string,
                     watermarked: nat -> bool, secure: string -> string)

  /** A row `add_commission_image` inserts, with the upload it came from. */
  datatype StoredImage = StoredImage(upload: nat, displayOrder: nat, path: string)

  /** The `db_path` of the upload named `filename` whose stored name carries the number `n`. */
  function StoredPath(env: Env, n: nat, filename: string): string {
    var originalName := CommissionFileName(env.clock(n), n, env.secure(filename));
    DbPath(env.commissionId, originalName, env.watermark, env.watermarked(n), env.uuid(n))
  }

  /** The row a new commission stores for a match: the file name carries the display order (app.py:544). */
  function AddedRow(env: Env, m: Match): StoredImage {
    StoredImage(m.upload, m.displayOrder, StoredPath(env, m.displayOrder, m.filename))
  }

  function AddedRows(env: Env, matches: seq<Match>): seq<StoredImage> {
    seq(|matches|, k requires 0 <= k < |matches| => AddedRow(env, matches[k]))
  }

  lemma AddedRowsSnoc(env: Env, matches: seq<Match>, m: Match)
    ensures AddedRows(env, matches + [m]) == AddedRows(env, matches) + [AddedRow(env, m)]
  {
    var a := AddedRows(env, matches + [m]);
    var b := AddedRows(env, matches) + [AddedRow(env, m)];
    assert |a| == |b|;
    forall k | 0 <= k < |a| ensures a[k] == b[k] {
      if k < |matches| {
        assert (matches + [m])[k] == matches[k];
        assert b[k] == AddedRows(env, matches)[k];
      } else {
        assert (matches + [m])[k] == m;
        assert b[k] == AddedRow(env, m);
      }
    }
  }

  /**
   * The body of the outer loop for position `p`: store and pop the
   * candidate for `order[p]`, if one remains.
   */
  method MatchPosition(imageList: seq<Candidate>, stored: seq<StoredImage>, order: seq<int>, p: nat,
                       uploads: seq<Option<string>>, env: Env)
    returns (imageList': seq<Candidate>, stored': seq<StoredImage>)
    requires p < |order|
    requires imageList == Remaining(Candidates(uploads), order[..p])
    requires stored == AddedRows(env, Matches(order[..p], uploads))
    ensures imageList' == Remaining(Candidates(uploads), order[..p + 1])
    ensures stored' == AddedRows(env, Matches(order[..p + 1], uploads))
  {
    var idx := FindCandidate(imageList, order[p]);
    MatchOutcome(order, p, uploads, imageList, idx);
    MatchesStep(order, p, uploads);
    ghost var before := Matches(order[..p], uploads);
    if idx < |imageList| {
      var c := imageList[idx];
      var m := Match(c.index, p, c.filename);
      AddedRowsSnoc(env, before, m);
      stored' := stored + [AddedRow(env, m)];
      imageList' := imageList[..idx] + imageList[idx + 1..];
    } else {
      assert before + [] == before;
      imageList', stored' := imageList, stored;
    }
  }

  /**
   * The matching loop of `dashboard_add_commission` (app.py:531-572): for
   * each position of the order list, the first remaining candidate with
   * that upload position is stored and popped from `image_list`.
   */
  method StoreOrderedImages(order: seq<int>, uploads: seq<Option<string>>, env: Env)
    returns (stored: seq<StoredImage>)
    ensures stored == AddedRows(env, Matches(order, uploads))
  {
    var candidates := BuildImageList(uploads);
    var imageList := candidates;
    RemainingNone(candidates);
    stored := [];
    for p := 0 to |order|
      invariant imageList == Remaining(candidates, order[..p])
      invariant stored == AddedRows(env, Matches(order[..p], uploads))
    {
      imageList, stored := MatchPosition(imageList, stored, order, p, uploads, env);
    }
    assert order[..|order|] == order;
  }

  // ---------------------------------------------------------------------
  // What the matches satisfy

  /** `m` is the upload named at its display order, at that name's first occurrence. */
  predicate MatchedFrom(order: seq<int>, uploads: seq<Option<string>>, m: Match) {
    && m.displayOrder < |order|
    && order[m.displayOrder] == m.upload
    && m.upload < |uploads|
    && Truthy(uploads[m.upload])
    && m.filename == uploads[m.upload].value
    && m.upload !in order[..m.displayOrder]
  }

  /**
   * Every stored upload has a file and is named at its display order for the
   * first time, and display orders strictly increase (with gaps where a
   * position stored nothing).
   */
  lemma {:induction false} MatchesShape(order: seq<int>, uploads: seq<Option<string>>)
    ensures forall k :: 0 <= k < |Matches(order, uploads)| ==> MatchedFrom(order, uploads, Matches(order, uploads)[k])
    ensures forall a, b :: 0 <= a < b < |Matches(order, uploads)| ==>
      Matches(order, uploads)[a].displayOrder < Matches(order, uploads)[b].displayOrder
  {
    if order != [] {
      var n := |order| - 1;
      var init := order[..n];
      MatchesShape(init, uploads);
      var prev := Matches(init, uploads);
      var ms := Matches(order, uploads);
      assert ms == prev + MatchAt(order, n, uploads);
      forall k | 0 <= k < |ms| ensures MatchedFrom(order, uploads, ms[k]) {
        if k < |prev| {
          var d := prev[k].displayOrder;
          assert ms[k] == prev[k];
          assert MatchedFrom(init, uploads, prev[k]);
          assert init[d] == order[d];
          assert init[..d] == order[..d];
        }
      }
      forall a, b | 0 <= a < b < |ms| ensures ms[a].displayOrder < ms[b].displayOrder {
        assert ms[a] == prev[a];
        assert MatchedFrom(init, uploads, prev[a]);
        if b < |prev| {
          assert ms[b] == prev[b];
        }
      }
    }
  }

  /** Each upload is stored at most once, however often the order list names it. */
  lemma MatchedAtMostOnce(order: seq<int>, uploads: seq<Option<string>>)
    ensures var ms := Matches(order, uploads);
      forall a, b :: 0 <= a < b < |ms| ==> ms[a].upload != ms[b].upload
  {
    var ms := Matches(order, uploads);
    MatchesShape(order, uploads);
    forall a, b | 0 <= a < b < |ms| ensures ms[a].upload != ms[b].upload {
      var da, db := ms[a].displayOrder, ms[b].displayOrder;
      assert MatchedFrom(order, uploads, ms[a]) && MatchedFrom(order, uploads, ms[b]);
      assert order[..db][da] == ms[a].upload;
    }
  }

  /** Every upload with a file that the order list names is stored, at the first position naming it. */
  lemma {:induction false} MatchesComplete(order: seq<int>, uploads: seq<Option<string>>, p: nat)
    requires p < |order| && 0 <= order[p] < |uploads| && Truthy(uploads[order[p]]) && order[p] !in order[..p]
    ensures Match(order[p], p, uploads[order[p]].value) in Matches(order, uploads)
  {
    var n := |order| - 1;
    var init := order[..n];
    if p < n {
      assert init[p] == order[p] && init[..p] == order[..p];
      MatchesComplete(init, uploads, p);
    }
  }

  /**
   * With the default order every upload that has a file is stored, each
   * with its own upload position as display order.
   */
  lemma DefaultOrderStoresAll(uploads: seq<Option<string>>)
    ensures var ms := Matches(Range(|uploads|), uploads);
      && (forall k :: 0 <= k < |ms| ==> ms[k].displayOrder == ms[k].upload)
      && (forall i :: 0 <= i < |uploads| && Truthy(uploads[i]) ==> Match(i, i, uploads[i].value) in ms)
  {
    var order := Range(|uploads|);
    MatchesShape(order, uploads);
    forall i | 0 <= i < |uploads| && Truthy(uploads[i])
      ensures Match(i, i, uploads[i].value) in Matches(order, uploads)
    {
      forall k | 0 <= k < i ensures order[..i][k] != i {
        assert order[k] == k;
      }
      MatchesComplete(order, uploads, i);
    }
  }

  // ---------------------------------------------------------------------
  // Editing a commission

  /**
   * `image_orders` (app.py:615-625): `(image_id, position)` for each id of the
   * `image-order` field, or `None` when the field is empty or an item is not
   * an integer, in which case no order is updated.
   */
  function ImageOrderPairs(imageOrder: string): (pairs: Option<seq<(int, int)>>)
    ensures pairs.Some? <==> imageOrder != "" && AllIntegers(Split(imageOrder, ','))
    ensures pairs.Some? ==> |pairs.value| == |Split(imageOrder, ',')|
    ensures pairs.Some? ==> forall k :: 0 <= k < |pairs.value| ==>
      ParseInt(Split(imageOrder, ',')[k]) == Some(pairs.value[k].0) && pairs.value[k].1 == k
  {
    if imageOrder == "" then None
    else
      var parts := Split(imageOrder, ',');
      var parsed := ParseAll(parts);
      if parsed.None? then
        None
      else
        var ids := parsed.value;
        Some(seq(|ids|, k requires 0 <= k < |ids| => (ids[k], k)))
  }

  /** Each image id sent in the order field is paired with its position in the field. */
  lemma ImageOrderPairsOfOrderField(ids: seq<int>)
    requires |ids| > 0
    ensures var pairs := ImageOrderPairs(OrderField(ids));
      && pairs.Some? && |pairs.value| == |ids|
      && forall k :: 0 <= k < |ids| ==> pairs.value[k] == (ids[k], k)
  {
    OrderedIndicesOfOrderField(ids, 0);
  }

  /**
   * The uploads an edit appends: each upload with a file, at upload position
   * `i`, gets display order `i + existing`, where `existing` is the number of
   * images the commission had.
   */
  function NewMatches(uploads: seq<Option<string>>, existing: nat): seq<Match> {
    var list := Candidates(uploads);
    seq(|list|, k requires 0 <= k < |list| => Match(list[k].index, list[k].index + existing, list[k].filename))
  }

  /** Appended display orders start at `existing` and increase; exactly the uploads with a file are appended. */
  lemma NewMatchesShape(uploads: seq<Option<string>>, existing: nat)
    ensures var ms := NewMatches(uploads, existing);
      && (forall k :: 0 <= k < |ms| ==>
            && existing <= ms[k].displayOrder == ms[k].upload + existing
            && ms[k].upload < |uploads| && Truthy(uploads[ms[k].upload]))
      && (forall a, b :: 0 <= a < b < |ms| ==> ms[a].displayOrder < ms[b].displayOrder)
      && (forall i :: 0 <= i < |uploads| && Truthy(uploads[i]) ==> Match(i, i + existing, uploads[i].value) in ms)
  {
    var list := Candidates(uploads);
    var ms := NewMatches(uploads, existing);
    forall k | 0 <= k < |ms| ensures ms[k].upload < |uploads| && Truthy(uploads[ms[k].upload]) {
      assert list[k] in list;
    }
    forall i | 0 <= i < |uploads| && Truthy(uploads[i]) ensures Match(i, i + existing, uploads[i].value) in ms {
      var k :| 0 <= k < |list| && list[k] == Candidate(i, uploads[i].value);
      assert ms[k] == Match(i, i + existing, uploads[i].value);
    }
  }

  /** The row an edit stores for a new upload: the file name carries the upload position (app.py:649). */
  function EditedRow(env: Env, m: Match): StoredImage {
    StoredImage(m.upload, m.displayOrder, StoredPath(env, m.upload, m.filename))
  }

  function EditedRows(env: Env, matches: seq<Match>): seq<StoredImage> {
    seq(|matches|, k requires 0 <= k < |matches| => EditedRow(env, matches[k]))
  }

  lemma NewMatchesStep(uploads: seq<Option<string>>, i: nat, existing: nat)
    requires i < |uploads|
    ensures NewMatches(uploads[..i + 1], existing)
      == NewMatches(uploads[..i], existing) + if Truthy(uploads[i]) then [Match(i, i + existing, uploads[i].value)] else []
  {
    assert uploads[..i + 1][..i] == uploads[..i];
  }

  lemma EditedRowsSnoc(env: Env, matches: seq<Match>, m: Match)
    ensures EditedRows(env, matches + [m]) == EditedRows(env, matches) + [EditedRow(env, m)]
  {
    var a := EditedRows(env, matches + [m]);
    var b := EditedRows(env, matches) + [EditedRow(env, m)];
    assert |a| == |b|;
    forall k | 0 <= k < |a| ensures a[k] == b[k] {
      if k < |matches| {
        assert (matches + [m])[k] == matches[k];
        assert b[k] == EditedRows(env, matches)[k];
      } else {
        assert (matches + [m])[k] == m;
        assert b[k] == EditedRow(env, m);
      }
    }
  }

  /** The upload loop of `dashboard_edit_commission` (app.py:644-673). */
  method AppendNewImages(uploads: seq<Option<string>>, existing: nat, env: Env) returns (added: seq<StoredImage>)
    ensures added == EditedRows(env, NewMatches(uploads, existing))
  {
    added := [];
    for i := 0 to |uploads|
      invariant added == EditedRows(env, NewMatches(uploads[..i], existing))
    {
      NewMatchesStep(uploads, i, existing);
      ghost var before := NewMatches(uploads[..i], existing);
      if Truthy(uploads[i]) {
        var m := Match(i, i + existing, uploads[i].value);
        EditedRowsSnoc(env, before, m);
        added := added + [EditedRow(env, m)];
      } else {
        assert before + [] == before;
      }
    }
    assert uploads[..|uploads|] == uploads;
  }
}
