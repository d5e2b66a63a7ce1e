/**
 * The table logic of db.py, with tables as sequences of rows in table
 * order and each SQL `UPDATE` or `DELETE` as a function from the old table
 * to the new one: date conversion of fetched rows, the grouping of
 * references by category and subcategory, the settings update, the guarded
 * artist deletion, category renames and the replacement of a custom
 * reference's items.
 */
module Store {
  import opened Options
  import opened Dates
  import opened Records

  // ---------------------------------------------------------------------
  // convert_date_fields (db.py:11-34)

  /** The `strptime` layouts tried, in order (db.py:24). */
  datatype Layout = DateTimeLayout | DateLayout

  const DateFormats: seq<Layout> := [DateTimeLayout, DateLayout]

  function Strptime(s: string, layout: Layout): Option<DateTime> {
    match layout
    case DateTimeLayout => ParseDateTime(s)
    case DateLayout => ParseDate(s)
  }

  /** The first layout that parses `s` wins; `None` when none does. */
  function FirstParse(s: string, layouts: seq<Layout>): (r: Option<DateTime>)
    ensures r.Some? <==> exists k :: 0 <= k < |layouts| && Strptime(s, layouts[k]).Some?
    ensures r.Some? ==> Valid(r.value)
    ensures r.Some? ==> exists k :: (0 <= k < |layouts| && Strptime(s, layouts[k]) == r
      && forall j :: 0 <= j < k ==> Strptime(s, layouts[j]).None?)
  {
    if layouts == [] then None
    else match Strptime(s, layouts[0])
      case Some(t) => Some(t)
      case None =>
        var r := FirstParse(s, layouts[1..]);
        assert forall k :: 0 < k < |layouts| ==> layouts[1..][k - 1] == layouts[k];
        if r.Some? then
          var k :| 0 <= k < |layouts[1..]| && Strptime(s, layouts[1..][k]) == r
            && (forall j :: 0 <= j < k ==> Strptime(s, layouts[1..][j]).None?);
          assert Strptime(s, layouts[k + 1]) == r;
          r
        else r
  }

  /**
   * What the loop body does to one listed value that is present: `None` and
   * datetimes are left alone, text becomes the datetime of the first layout
   * that parses it, and anything else (a `TypeError` from `strptime`) or
   * text neither layout parses is kept.
   */
  function ConvertValue(v: Value): (r: Value)
    ensures r == v || (v.Text? && r.Date?)
    ensures v.Text? && r.Date? ==>
      ((ParseDateTime(v.s).Some? && ParseDateTime(v.s).value == r.t)
       || (ParseDateTime(v.s).None? && ParseDate(v.s).Some? && ParseDate(v.s).value == r.t))
    ensures v.Text? && (ParseDateTime(v.s).Some? || ParseDate(v.s).Some?) ==> r.Date?
  {
    if v.Text? && FirstParse(v.s, DateFormats).Some? then Date(FirstParse(v.s, DateFormats).value)
    else if v.Text? then
      assert Strptime(v.s, DateFormats[0]) == ParseDateTime(v.s);
      assert Strptime(v.s, DateFormats[1]) == ParseDate(v.s);
      v
    else v
  }

  /** A value stored as `'%Y-%m-%d %H:%M:%S'` comes back as its datetime. */
  lemma ConvertFormattedDateTime(t: Timestamp)
    ensures ConvertValue(Text(FormatDateTime(t))) == Date(t)
  {
    ParseFormatDateTime(t);
  }

  /** A value stored as `'%Y-%m-%d'` comes back as that day at midnight. */
  lemma ConvertFormattedDate(t: Timestamp)
    ensures ConvertValue(Text(FormatDate(t))) == Date(Midnight(t))
  {
    var s := FormatDate(t);
    ParseFormatDate(t);
    assert ParseDateTime(s).None?;
    assert FirstParse(s, DateFormats[1..]) == Some(Midnight(t)) by {
      assert DateFormats[1..][1..] == [];
    }
  }

  /** Converting twice is converting once: a converted value is a datetime or was left as it is. */
  lemma ConvertValueIdempotent(v: Value)
    ensures ConvertValue(ConvertValue(v)) == ConvertValue(v)
  {
  }

  /** The copy `convert_date_fields` returns: listed fields converted, everything else as it was. */
  function Converted(r: Record, dateFields: seq<string>): (c: Record)
    ensures c.Keys == r.Keys
    ensures forall k :: k in r && k !in dateFields ==> c[k] == r[k]
  {
    map k | k in r :: if k in dateFields then ConvertValue(r[k]) else r[k]
  }

  /**
   * `convert_date_fields(data, date_fields)`: `None` stays `None`; otherwise
   * each listed field of a copy of the row is converted in turn.
   */
  method ConvertDateFields(data: Option<Record>, dateFields: seq<string>) returns (result: Option<Record>)
    ensures data.None? ==> result.None?
    ensures data.Some? ==> result == Some(Converted(data.value, dateFields))
  {
    if data.None? {
      return None;
    }
    var row := data.value;
    for i := 0 to |dateFields|
      invariant row.Keys == data.value.Keys
      invariant forall k :: k in row ==> row[k] == if k in dateFields[..i] then ConvertValue(data.value[k]) else data.value[k]
    {
      var field := dateFields[i];
      assert dateFields[..i + 1] == dateFields[..i] + [field];
      if field in row && row[field] != Null {
        if !row[field].Date? {
          ConvertValueIdempotent(data.value[field]);
          row := row[field := ConvertValue(row[field])];
        }
      }
    }
    assert dateFields[..|dateFields|] == dateFields;
    var expected := Converted(data.value, dateFields);
    assert row.Keys == expected.Keys;
    assert forall k :: k in row ==> row[k] == expected[k];
    assert row == expected;
    return Some(row);
  }

  // ---------------------------------------------------------------------
  // get_organized_references (db.py:216-242)

  predicate IsReferenceRow(r: Record) {
    "category" in r && "subcategory" in r && "public" in r
  }

  predicate AllReferenceRows(rows: seq<Record>) {
    forall k :: 0 <= k < |rows| ==> IsReferenceRow(rows[k])
  }

  /** The rows the query returns: all of them, or only those with `public = 1`. */
  function Visible(table: seq<Record>, includePrivate: bool): (rows: seq<Record>)
    requires AllReferenceRows(table)
    ensures AllReferenceRows(rows)
    ensures includePrivate ==> rows == table
    ensures !includePrivate ==> forall k :: 0 <= k < |rows| ==> rows[k]["public"] == Int(1)
    ensures forall r :: r in rows ==> r in table
  {
    if includePrivate || table == [] then table
    else
      var init := Visible(table[..|table| - 1], false);
      var last := table[|table| - 1];
      assert forall k :: 0 <= k < |table| - 1 ==> table[..|table| - 1][k] == table[k];
      init + if last["public"] == Int(1) then [last] else []
  }

  /** The public rows are all kept when private ones are excluded. */
  lemma {:induction false} VisibleKeepsPublic(table: seq<Record>, k: nat)
    requires AllReferenceRows(table) && k < |table| && table[k]["public"] == Int(1)
    ensures table[k] in Visible(table, false)
  {
    var n := |table| - 1;
    if k < n {
      assert table[..n][k] == table[k];
      VisibleKeepsPublic(table[..n], k);
    }
  }

  /** The converted rows of category `c` and subcategory `s`, in row order. */
  function Bucket(rows: seq<Record>, c: Value, s: Value): seq<Record>
    requires AllReferenceRows(rows)
  {
    if rows == [] then []
    else
      var n := |rows| - 1;
      var r := rows[n];
      Bucket(rows[..n], c, s) + if r["category"] == c && r["subcategory"] == s then [Converted(r, ["upload_date"])] else []
  }

  /** The number of rows of category `c` and subcategory `s`. */
  function Count(rows: seq<Record>, c: Value, s: Value): nat
    requires AllReferenceRows(rows)
  {
    if rows == [] then 0
    else
      var n := |rows| - 1;
      Count(rows[..n], c, s) + if rows[n]["category"] == c && rows[n]["subcategory"] == s then 1 else 0
  }

  predicate HasCategory(rows: seq<Record>, c: Value)
    requires AllReferenceRows(rows)
  {
    exists k :: 0 <= k < |rows| && rows[k]["category"] == c
  }

  lemma {:induction false} BucketLength(rows: seq<Record>, c: Value, s: Value)
    requires AllReferenceRows(rows)
    ensures |Bucket(rows, c, s)| == Count(rows, c, s)
  {
    if rows != [] {
      BucketLength(rows[..|rows| - 1], c, s);
    }
  }

  lemma BucketPrefix(rows: seq<Record>, c: Value, s: Value, n: nat)
    requires AllReferenceRows(rows) && n <= |rows|
    ensures AllReferenceRows(rows[..n])
    ensures Bucket(rows[..n], c, s) <= Bucket(rows, c, s)
    decreases |rows| - n
  {
    if n == |rows| {
      assert rows[..n] == rows;
    } else {
      var init := rows[..|rows| - 1];
      assert init[..n] == rows[..n];
      assert AllReferenceRows(init);
      BucketPrefix(init, c, s, n);
      assert Bucket(init, c, s) <= Bucket(rows, c, s);
    }
  }

  /**
   * Every row lands in the bucket of its own category and subcategory,
   * after exactly the earlier rows of that bucket: no row is lost, none is
   * duplicated, and buckets keep row order.
   */
  lemma {:induction false} BucketPosition(rows: seq<Record>, k: nat, c: Value, s: Value)
    requires AllReferenceRows(rows) && k < |rows|
    requires c == rows[k]["category"] && s == rows[k]["subcategory"]
    ensures AllReferenceRows(rows[..k])
    ensures Count(rows[..k], c, s) < |Bucket(rows, c, s)|
    ensures Bucket(rows, c, s)[Count(rows[..k], c, s)] == Converted(rows[k], ["upload_date"])
  {
    var n := |rows| - 1;
    var init := rows[..n];
    assert AllReferenceRows(init);
    BucketSnoc(rows, n);
    assert rows[..n + 1] == rows;
    if k == n {
      BucketLength(init, c, s);
    } else {
      assert init[k] == rows[k] && init[..k] == rows[..k];
      BucketPosition(init, k, c, s);
    }
  }

  /** A subcategory is only ever counted under a category some row has. */
  lemma {:induction false} CountHasCategory(rows: seq<Record>, c: Value, s: Value)
    requires AllReferenceRows(rows) && Count(rows, c, s) > 0
    ensures HasCategory(rows, c)
  {
    var n := |rows| - 1;
    if rows[n]["category"] != c || rows[n]["subcategory"] != s {
      CountHasCategory(rows[..n], c, s);
      var k :| 0 <= k < n && rows[..n][k]["category"] == c;
      assert rows[k] == rows[..n][k];
    }
  }

  /** Without a row of category `c`, no subcategory of `c` is counted. */
  lemma NoCategoryNoCount(rows: seq<Record>, c: Value)
    requires AllReferenceRows(rows) && !HasCategory(rows, c)
    ensures forall s :: Count(rows, c, s) == 0
  {
    forall s ensures Count(rows, c, s) == 0 {
      if Count(rows, c, s) > 0 {
        CountHasCategory(rows, c, s);
      }
    }
  }

  /** Row `i` adds its own category and no other. */
  lemma HasCategorySnoc(rows: seq<Record>, i: nat)
    requires AllReferenceRows(rows) && i < |rows|
    ensures AllReferenceRows(rows[..i]) && AllReferenceRows(rows[..i + 1])
    ensures forall c :: HasCategory(rows[..i + 1], c) <==> HasCategory(rows[..i], c) || c == rows[i]["category"]
  {
    var prefix := rows[..i + 1];
    forall c ensures HasCategory(prefix, c) <==> HasCategory(rows[..i], c) || c == rows[i]["category"] {
      if HasCategory(prefix, c) {
        var k :| 0 <= k < |prefix| && prefix[k]["category"] == c;
        if k < i {
          assert rows[..i][k] == prefix[k];
        }
      }
      if HasCategory(rows[..i], c) {
        var k :| 0 <= k < i && rows[..i][k]["category"] == c;
        assert prefix[k] == rows[..i][k];
      }
      if c == rows[i]["category"] {
        assert prefix[i]["category"] == c;
      }
    }
  }

  /** Extending the rows by row `i` extends exactly its own bucket. */
  lemma BucketSnoc(rows: seq<Record>, i: nat)
    requires AllReferenceRows(rows) && i < |rows|
    ensures AllReferenceRows(rows[..i]) && AllReferenceRows(rows[..i + 1])
    ensures forall c, s :: (Bucket(rows[..i + 1], c, s) == Bucket(rows[..i], c, s)
      + (if rows[i]["category"] == c && rows[i]["subcategory"] == s then [Converted(rows[i], ["upload_date"])] else []))
    ensures forall c, s :: (Count(rows[..i + 1], c, s) == Count(rows[..i], c, s)
      + (if rows[i]["category"] == c && rows[i]["subcategory"] == s then 1 else 0))
  {
    assert rows[..i + 1][..i] == rows[..i];
  }

  type Grouped = map<Value, map<Value, seq<Record>>>

  /** `organized[c][s].append(x)`, creating the category and subcategory entries on first use. */
  function Insert(g: Grouped, c: Value, s: Value, x: Record): (g': Grouped)
    ensures g'.Keys == g.Keys + {c}
    ensures forall c' :: c' in g && c' != c ==> g'[c'] == g[c']
    ensures s in g'[c] && g'[c][s] == (if c in g && s in g[c] then g[c][s] else []) + [x]
    ensures forall s' :: s' != s ==> (s' in g'[c] <==> c in g && s' in g[c])
    ensures forall s' :: s' != s && s' in g'[c] ==> g'[c][s'] == g[c][s']
  {
    var g1 := if c in g then g else g[c := map[]];
    var g2 := if s in g1[c] then g1 else g1[c := g1[c][s := []]];
    g2[c := g2[c][s := g2[c][s] + [x]]]
  }

  /** The nested dictionary the grouping loop builds from `rows`. */
  function Grouping(rows: seq<Record>): Grouped
    requires AllReferenceRows(rows)
  {
    if rows == [] then map[]
    else
      var r := rows[|rows| - 1];
      Insert(Grouping(rows[..|rows| - 1]), r["category"], r["subcategory"], Converted(r, ["upload_date"]))
  }

  /** A category is a key exactly when some row has it. */
  lemma {:induction false} GroupingKeys(rows: seq<Record>, c: Value)
    requires AllReferenceRows(rows)
    ensures c in Grouping(rows) <==> HasCategory(rows, c)
  {
    if rows != [] {
      var n := |rows| - 1;
      assert AllReferenceRows(rows[..n]);
      GroupingKeys(rows[..n], c);
      HasCategorySnoc(rows, n);
      assert rows[..n + 1] == rows;
    }
  }

  /**
   * Under a category that is a key, a subcategory is a key exactly when
   * some row has both, and the list there holds those rows, converted, in
   * row order.
   */
  lemma {:induction false} GroupingBuckets(rows: seq<Record>, c: Value, s: Value)
    requires AllReferenceRows(rows) && c in Grouping(rows)
    ensures s in Grouping(rows)[c] <==> Count(rows, c, s) > 0
    ensures s in Grouping(rows)[c] ==> Grouping(rows)[c][s] == Bucket(rows, c, s)
  {
    var n := |rows| - 1;
    var init, r := rows[..n], rows[n];
    assert AllReferenceRows(init);
    var g := Grouping(init);
    var here := r["category"] == c && r["subcategory"] == s;
    assert Grouping(rows) == Insert(g, r["category"], r["subcategory"], Converted(r, ["upload_date"]));
    assert Count(rows, c, s) == Count(init, c, s) + if here then 1 else 0;
    assert Bucket(rows, c, s) == Bucket(init, c, s) + if here then [Converted(r, ["upload_date"])] else [];
    if c != r["category"] {
      GroupingBuckets(init, c, s);
    } else if c !in g {
      GroupingKeys(init, c);
      NoCategoryNoCount(init, c);
      BucketLength(init, c, s);
    } else {
      GroupingBuckets(init, c, s);
      if s == r["subcategory"] && s !in g[c] {
        BucketLength(init, c, s);
      }
    }
  }

  /**
   * What the grouping means: a category is a key exactly when some row has
   * it, a subcategory is a key under it exactly when some row has both, and
   * the list there holds those rows, converted, in row order.
   */
  lemma GroupingShape(rows: seq<Record>)
    requires AllReferenceRows(rows)
    ensures forall c :: c in Grouping(rows) <==> HasCategory(rows, c)
    ensures forall c, s :: c in Grouping(rows) ==> (s in Grouping(rows)[c] <==> Count(rows, c, s) > 0)
    ensures forall c, s :: c in Grouping(rows) && s in Grouping(rows)[c] ==> Grouping(rows)[c][s] == Bucket(rows, c, s)
  {
    forall c, s ensures
      && (c in Grouping(rows) <==> HasCategory(rows, c))
      && (c in Grouping(rows) ==> (s in Grouping(rows)[c] <==> Count(rows, c, s) > 0))
      && (c in Grouping(rows) && s in Grouping(rows)[c] ==> Grouping(rows)[c][s] == Bucket(rows, c, s))
    {
      GroupingKeys(rows, c);
      if c in Grouping(rows) {
        GroupingBuckets(rows, c, s);
      }
    }
  }

  /**
   * The grouping loop (db.py:228-239): `organized[category][subcategory]` is
   * created on first use and each converted row is appended to it.
   */
  method Organize(rows: seq<Record>) returns (organized: Grouped)
    requires AllReferenceRows(rows)
    ensures organized == Grouping(rows)
  {
    organized := map[];
    for i := 0 to |rows|
      invariant AllReferenceRows(rows[..i])
      invariant organized == Grouping(rows[..i])
    {
      var ref := rows[i];
      var category, subcategory := ref["category"], ref["subcategory"];
      ghost var g := organized;
      ghost var x := Converted(ref, ["upload_date"]);
      assert Grouping(rows[..i + 1]) == Insert(g, category, subcategory, x) by {
        assert rows[..i + 1][..i] == rows[..i] && rows[..i + 1][i] == ref;
      }
      if category !in organized {
        organized := organized[category := map[]];
      }
      ghost var g1 := organized;
      if subcategory !in organized[category] {
        organized := organized[category := organized[category][subcategory := []]];
      }
      ghost var g2 := organized;
      var converted := ConvertDateFields(Some(ref), ["upload_date"]);
      organized := organized[category := organized[category][subcategory := organized[category][subcategory] + [converted.value]]];
      assert organized == g2[category := g2[category][subcategory := g2[category][subcategory] + [x]]];
      assert organized == Insert(g, category, subcategory, x) by {
        assert g1 == if category in g then g else g[category := map[]];
        assert g2 == if subcategory in g1[category] then g1 else g1[category := g1[category][subcategory := []]];
      }
    }
    assert rows[..|rows|] == rows;
  }

  /**
   * `get_organized_references(include_private)`: the visible rows grouped by
   * category, then subcategory.
   */
  method GetOrganizedReferences(table: seq<Record>, includePrivate: bool) returns (organized: Grouped)
    requires AllReferenceRows(table)
    ensures forall c :: c in organized <==> HasCategory(Visible(table, includePrivate), c)
    ensures forall c, s :: c in organized ==> (s in organized[c] <==> Count(Visible(table, includePrivate), c, s) > 0)
    ensures forall c, s :: c in organized && s in organized[c] ==> organized[c][s] == Bucket(Visible(table, includePrivate), c, s)
  {
    organized := Organize(Visible(table, includePrivate));
    GroupingShape(Visible(table, includePrivate));
  }
}
