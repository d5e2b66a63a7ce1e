/**
 * The single-statement table updates of db.py, each a function from the
 * old table (a sequence of rows in table order) to the new one, paired
 * with what the Python function returns: the admin settings and their
 * read-back defaults, the guarded deletion of an artist, category and
 * subcategory renames of references, and the replacement of a custom
 * reference's item list.
 */
module Tables {
  import opened Options
  import opened Records
  import opened Store

  // ---------------------------------------------------------------------
  // Admin settings (db.py:149-168, 195-213)

  /** A row of the `admin` table; `None` is SQL `NULL`. */
  datatype Admin = Admin(
    username: string,
    password: string,
    siteTitle: Option<string>,
    setupComplete: int,
    contactLink: Option<string>)

  const DefaultSiteTitle: string := "Art Commission Gallery"

  /** `get_site_title()`: the first admin row's title, or the default when there is no row. */
  function GetSiteTitle(admins: seq<Admin>): (title: Option<string>)
    ensures admins == [] ==> title == Some(DefaultSiteTitle)
    ensures admins != [] ==> title == admins[0].siteTitle
  {
    if admins == [] then Some(DefaultSiteTitle) else admins[0].siteTitle
  }

  /** `get_contact_link()`: the first admin row's link when it is non-empty, `''` otherwise. */
  function GetContactLink(admins: seq<Admin>): (link: string)
    ensures link != "" <==> admins != [] && Truthy(admins[0].contactLink)
    ensures link != "" ==> Some(link) == admins[0].contactLink
  {
    if admins != [] && Truthy(admins[0].contactLink) then admins[0].contactLink.value else ""
  }

  /** The three `UPDATE [admin]` statements applied to one row. */
  function UpdateAdmin(a: Admin, siteTitle: Option<string>, newPassword: Option<string>,
                       contactLink: Option<string>, hash: string -> string): Admin
  {
    a.(siteTitle := if Truthy(siteTitle) then siteTitle else a.siteTitle,
       password := if Truthy(newPassword) then hash(newPassword.value) else a.password,
       contactLink := if contactLink.Some? then contactLink else a.contactLink)
  }

  /**
   * `update_settings(site_title, new_password, contact_link)`: every admin
   * row gets the new title and the hash of the new password when these are
   * non-empty, and the new contact link whenever one is given, even `''`.
   * Nothing else changes, and the result is `True`.
   */
  function UpdateSettings(admins: seq<Admin>, siteTitle: Option<string>, newPassword: Option<string>,
                          contactLink: Option<string>, hash: string -> string): (r: (seq<Admin>, bool))
    ensures r.1
    ensures |r.0| == |admins|
    ensures forall k :: 0 <= k < |admins| ==>
      r.0[k].username == admins[k].username && r.0[k].setupComplete == admins[k].setupComplete
    ensures forall k :: 0 <= k < |admins| ==>
      r.0[k].siteTitle == (if Truthy(siteTitle) then siteTitle else admins[k].siteTitle)
    ensures forall k :: 0 <= k < |admins| ==>
      r.0[k].password == (if Truthy(newPassword) then hash(newPassword.value) else admins[k].password)
    ensures forall k :: 0 <= k < |admins| ==>
      r.0[k].contactLink == (if contactLink.Some? then contactLink else admins[k].contactLink)
  {
    (seq(|admins|, k requires 0 <= k < |admins| => UpdateAdmin(admins[k], siteTitle, newPassword, contactLink, hash)), true)
  }

  /**
   * Submitting the same settings twice leaves every column but the password
   * as one submission did. `generate_password_hash` salts each call, so the
   * two submissions hash with `hash1` and `hash2`, which may differ; without
   * a new password the whole table is left as it was.
   */
  lemma UpdateSettingsIdempotent(admins: seq<Admin>, siteTitle: Option<string>, newPassword: Option<string>,
                                 contactLink: Option<string>, hash1: string -> string, hash2: string -> string)
    ensures var once := UpdateSettings(admins, siteTitle, newPassword, contactLink, hash1).0;
      var twice := UpdateSettings(once, siteTitle, newPassword, contactLink, hash2).0;
      |twice| == |once| && forall k :: 0 <= k < |once| ==> twice[k].(password := once[k].password) == once[k]
    ensures var once := UpdateSettings(admins, siteTitle, newPassword, contactLink, hash1).0;
      !Truthy(newPassword) ==> UpdateSettings(once, siteTitle, newPassword, contactLink, hash2).0 == once
  {
  }

  /** After an update the site title reads back as the new title, or as before when none was given. */
  lemma SiteTitleAfterUpdate(admins: seq<Admin>, siteTitle: Option<string>, newPassword: Option<string>,
                             contactLink: Option<string>, hash: string -> string)
    ensures var after := UpdateSettings(admins, siteTitle, newPassword, contactLink, hash).0;
      GetSiteTitle(after) == if admins != [] && Truthy(siteTitle) then siteTitle else GetSiteTitle(admins)
  {
  }

  /**
   * After an update the contact link reads back as the given link, `''`
   * included, or as before when none was given. With no admin row the
   * update changes nothing and the link stays `''`.
   */
  lemma ContactLinkAfterUpdate(admins: seq<Admin>, siteTitle: Option<string>, newPassword: Option<string>,
                               contactLink: Option<string>, hash: string -> string)
    ensures var after := UpdateSettings(admins, siteTitle, newPassword, contactLink, hash).0;
      GetContactLink(after) == if admins != [] && contactLink.Some? then contactLink.value else GetContactLink(admins)
  {
  }

  // ---------------------------------------------------------------------
  // delete_artist (db.py:479-495)

  datatype Artist = Artist(id: int, name: string, socialLinks: Option<string>, notes: Option<string>)

  /** A row of the `commissions` table, reduced to the columns the artist check reads. */
  datatype Commission = Commission(id: int, artistId: int, title: string)

  /** `DELETE FROM [artists] WHERE id = ?`. */
  function WithoutArtist(artists: seq<Artist>, artistId: int): (r: seq<Artist>)
    ensures |r| <= |artists|
    ensures forall a :: a in r <==> a in artists && a.id != artistId
  {
    if artists == [] then []
    else (if artists[0].id == artistId then [] else [artists[0]]) + WithoutArtist(artists[1..], artistId)
  }

  predicate HasCommissions(commissions: seq<Commission>, artistId: int) {
    exists k :: 0 <= k < |commissions| && commissions[k].artistId == artistId
  }

  /**
   * `delete_artist(artist_id)`: refused, with nothing deleted, while a
   * commission still names the artist; otherwise the artist's rows go.
   */
  function DeleteArtist(artists: seq<Artist>, commissions: seq<Commission>, artistId: int): (r: (seq<Artist>, bool))
    ensures r.1 <==> !HasCommissions(commissions, artistId)
    ensures !r.1 ==> r.0 == artists
    ensures r.1 ==> forall a :: a in r.0 <==> a in artists && a.id != artistId
  {
    if HasCommissions(commissions, artistId) then (artists, false)
    else (WithoutArtist(artists, artistId), true)
  }

  predicate ArtistNamed(artists: seq<Artist>, artistId: int) {
    exists a :: a in artists && a.id == artistId
  }

  /** Every commission names an existing artist. */
  predicate ArtistsExist(artists: seq<Artist>, commissions: seq<Commission>) {
    forall k :: 0 <= k < |commissions| ==> ArtistNamed(artists, commissions[k].artistId)
  }

  /** The guard keeps every commission's artist in place. */
  lemma DeleteArtistKeepsArtistsOfCommissions(artists: seq<Artist>, commissions: seq<Commission>, artistId: int)
    requires ArtistsExist(artists, commissions)
    ensures ArtistsExist(DeleteArtist(artists, commissions, artistId).0, commissions)
  {
    var after := DeleteArtist(artists, commissions, artistId).0;
    forall k | 0 <= k < |commissions|
      ensures ArtistNamed(after, commissions[k].artistId)
    {
      var a :| a in artists && a.id == commissions[k].artistId;
      if !HasCommissions(commissions, artistId) {
        assert a.id != artistId;
      }
      assert a in after;
    }
    assert ArtistsExist(after, commissions);
  }

  // ---------------------------------------------------------------------
  // rename_category and rename_subcategory (db.py:697-737)

  /**
   * The `WHERE` of both renames: `field` equals `old`, and, when a
   * non-empty category scope is given, the category equals it.
   */
  predicate InScope(r: Record, field: string, oldName: string, category: Option<string>)
    requires IsReferenceRow(r) && field in r
  {
    r[field] == Text(oldName) && (Truthy(category) ==> r["category"] == Text(category.value))
  }

  predicate HasField(refs: seq<Record>, field: string) {
    forall k :: 0 <= k < |refs| ==> IsReferenceRow(refs[k]) && field in refs[k]
  }

  /**
   * `UPDATE [references] SET field = newName WHERE <InScope>`, with SQLite's
   * `rowcount`: the number of rows the `WHERE` matched.
   */
  function SetWhere(refs: seq<Record>, field: string, oldName: string, newName: string, category: Option<string>): (r: (seq<Record>, nat))
    requires HasField(refs, field)
    ensures |r.0| == |refs| && HasField(r.0, field)
    ensures forall k :: 0 <= k < |refs| ==> r.0[k] == RenameRow(refs[k], field, oldName, newName, category)
  {
    if refs == [] then ([], 0)
    else
      var rest := SetWhere(refs[1..], field, oldName, newName, category);
      var row := refs[0];
      ([RenameRow(row, field, oldName, newName, category)] + rest.0,
       rest.1 + if InScope(row, field, oldName, category) then 1 else 0)
  }

  /** The `SET` applied to one row, when the `WHERE` selects it. */
  function RenameRow(row: Record, field: string, oldName: string, newName: string, category: Option<string>): (r: Record)
    requires IsReferenceRow(row) && field in row
    ensures IsReferenceRow(r) && field in r
  {
    if InScope(row, field, oldName, category) then row[field := Text(newName)] else row
  }

  /**
   * On one row: renaming to a name the row's scope does not use yet, and
   * back, restores the row, and the renamed row is in scope for the new
   * name exactly when the original was for the old one.
   */
  lemma RenameRowBack(row: Record, field: string, oldName: string, newName: string, category: Option<string>)
    requires IsReferenceRow(row) && field in row && oldName != newName
    requires field == "category" ==> category.None?
    requires !InScope(row, field, newName, category)
    ensures var row' := RenameRow(row, field, oldName, newName, category);
      && (InScope(row', field, newName, category) <==> InScope(row, field, oldName, category))
      && !InScope(row', field, oldName, category)
      && RenameRow(row', field, newName, oldName, category) == row
  {
    if InScope(row, field, oldName, category) {
      assert row[field := Text(newName)][field := Text(oldName)] == row;
    }
  }

  /** The number of rows `InScope` selects. */
  function ScopeCount(refs: seq<Record>, field: string, v: string, category: Option<string>): nat
    requires HasField(refs, field)
  {
    if refs == [] then 0
    else (if InScope(refs[0], field, v, category) then 1 else 0) + ScopeCount(refs[1..], field, v, category)
  }

  /**
   * Renaming `old` to a name no row in scope has yet moves every row in
   * scope: afterwards none is left under `old` and exactly the reported
   * number is under `new`. A category rename is unscoped (`category` is
   * `None`); a subcategory rename renames a field other than the category
   * it is scoped by.
   */
  lemma {:induction false} SetWhereMoves(refs: seq<Record>, field: string, oldName: string, newName: string, category: Option<string>)
    requires HasField(refs, field) && oldName != newName
    requires field == "category" ==> category.None?
    requires ScopeCount(refs, field, newName, category) == 0
    ensures var r := SetWhere(refs, field, oldName, newName, category);
      ScopeCount(r.0, field, oldName, category) == 0 && ScopeCount(r.0, field, newName, category) == r.1
  {
    if refs != [] {
      var tail := refs[1..];
      assert HasField(tail, field);
      SetWhereMoves(tail, field, oldName, newName, category);
      RenameRowBack(refs[0], field, oldName, newName, category);
      var r := SetWhere(refs, field, oldName, newName, category);
      assert r.0[1..] == SetWhere(tail, field, oldName, newName, category).0;
    }
  }

  /** Under the same conditions, renaming `new` back to `old` restores the table and reports the same count. */
  lemma {:induction false} SetWhereRoundTrip(refs: seq<Record>, field: string, oldName: string, newName: string, category: Option<string>)
    requires HasField(refs, field) && oldName != newName
    requires field == "category" ==> category.None?
    requires ScopeCount(refs, field, newName, category) == 0
    ensures var r := SetWhere(refs, field, oldName, newName, category);
      SetWhere(r.0, field, newName, oldName, category) == (refs, r.1)
  {
    if refs != [] {
      var tail := refs[1..];
      assert HasField(tail, field);
      SetWhereRoundTrip(tail, field, oldName, newName, category);
      RenameRowBack(refs[0], field, oldName, newName, category);
      var r := SetWhere(refs, field, oldName, newName, category);
      assert r.0[1..] == SetWhere(tail, field, oldName, newName, category).0;
      var back := SetWhere(r.0, field, newName, oldName, category);
      assert back.0 == [refs[0]] + tail;
      assert refs == [refs[0]] + tail;
    }
  }

  /** `rename_category(old, new)`: every reference in category `old` moves to `new`. */
  function RenameCategory(refs: seq<Record>, oldName: string, newName: string): (r: (seq<Record>, nat))
    requires AllReferenceRows(refs)
    ensures AllReferenceRows(r.0) && |r.0| == |refs|
    ensures forall k :: 0 <= k < |refs| ==> r.0[k] == if refs[k]["category"] == Text(oldName) then refs[k]["category" := Text(newName)] else refs[k]
    ensures r.1 == ScopeCount(refs, "category", oldName, None)
  {
    assert HasField(refs, "category");
    SetWhereCount(refs, "category", oldName, newName, None);
    SetWhere(refs, "category", oldName, newName, None)
  }

  /**
   * `rename_subcategory(old, new, category)`: subcategory `old` becomes
   * `new`, within `category` only when a non-empty one is given.
   */
  function RenameSubcategory(refs: seq<Record>, oldName: string, newName: string, category: Option<string>): (r: (seq<Record>, nat))
    requires AllReferenceRows(refs)
    ensures AllReferenceRows(r.0) && |r.0| == |refs|
    ensures forall k :: 0 <= k < |refs| && InScope(refs[k], "subcategory", oldName, category) ==>
      r.0[k] == refs[k]["subcategory" := Text(newName)]
    ensures forall k :: 0 <= k < |refs| && !InScope(refs[k], "subcategory", oldName, category) ==> r.0[k] == refs[k]
    ensures Truthy(category) ==> forall k :: 0 <= k < |refs| && refs[k]["category"] != Text(category.value) ==> r.0[k] == refs[k]
    ensures r.1 == ScopeCount(refs, "subcategory", oldName, category)
  {
    assert HasField(refs, "subcategory");
    SetWhereCount(refs, "subcategory", oldName, newName, category);
    SetWhere(refs, "subcategory", oldName, newName, category)
  }

  /** The reported count is the number of rows the `WHERE` selects. */
  lemma {:induction false} SetWhereCount(refs: seq<Record>, field: string, oldName: string, newName: string, category: Option<string>)
    requires HasField(refs, field)
    ensures SetWhere(refs, field, oldName, newName, category).1 == ScopeCount(refs, field, oldName, category)
  {
    if refs != [] {
      SetWhereCount(refs[1..], field, oldName, newName, category);
    }
  }

  // ---------------------------------------------------------------------
  // update_custom_reference (db.py:394-417)

  datatype CustomReference = CustomReference(id: int, linkId: string, name: string)

  /** A row of `custom_reference_items`; its own key is not modelled. */
  datatype Item = Item(customRefId: int, referenceId: int)

  /** The reference ids of the custom reference `id`, in table order. */
  function ItemsOf(items: seq<Item>, id: int): seq<int> {
    if items == [] then []
    else (if items[0].customRefId == id then [items[0].referenceId] else []) + ItemsOf(items[1..], id)
  }

  /** `DELETE FROM [custom_reference_items] WHERE custom_ref_id = ?`. */
  function WithoutItems(items: seq<Item>, id: int): (r: seq<Item>)
    ensures forall i :: i in r <==> i in items && i.customRefId != id
  {
    if items == [] then []
    else (if items[0].customRefId == id then [] else [items[0]]) + WithoutItems(items[1..], id)
  }

  /** The rows the `INSERT` loop adds, one per selected reference, in order. */
  function NewItems(id: int, referenceIds: seq<int>): (r: seq<Item>)
    ensures |r| == |referenceIds|
    ensures forall k :: 0 <= k < |r| ==> r[k] == Item(id, referenceIds[k])
  {
    if referenceIds == [] then [] else [Item(id, referenceIds[0])] + NewItems(id, referenceIds[1..])
  }

  lemma {:induction false} ItemsOfAppend(a: seq<Item>, b: seq<Item>, id: int)
    ensures ItemsOf(a + b, id) == ItemsOf(a, id) + ItemsOf(b, id)
  {
    if a == [] {
      assert a + b == b;
    } else {
      assert (a + b)[0] == a[0] && (a + b)[1..] == a[1..] + b;
      ItemsOfAppend(a[1..], b, id);
      var head := if a[0].customRefId == id then [a[0].referenceId] else [];
      assert ItemsOf(a + b, id) == head + (ItemsOf(a[1..], id) + ItemsOf(b, id));
      assert head + (ItemsOf(a[1..], id) + ItemsOf(b, id)) == (head + ItemsOf(a[1..], id)) + ItemsOf(b, id);
    }
  }

  lemma {:induction false} ItemsOfWithout(items: seq<Item>, id: int, other: int)
    ensures ItemsOf(WithoutItems(items, id), other) == if other == id then [] else ItemsOf(items, other)
  {
    if items != [] {
      ItemsOfWithout(items[1..], id, other);
      var head := if items[0].customRefId == id then [] else [items[0]];
      ItemsOfAppend(head, WithoutItems(items[1..], id), other);
    }
  }

  lemma {:induction false} ItemsOfNew(id: int, referenceIds: seq<int>, other: int)
    ensures ItemsOf(NewItems(id, referenceIds), other) == if other == id then referenceIds else []
  {
    if referenceIds != [] {
      ItemsOfNew(id, referenceIds[1..], other);
      ItemsOfAppend([Item(id, referenceIds[0])], NewItems(id, referenceIds[1..]), other);
    }
  }

  /**
   * `update_custom_reference(id, name, reference_ids)`: the custom
   * reference `id` is renamed, its items become exactly `referenceIds` in
   * the given order, every other custom reference keeps its items, and the
   * result is `True`.
   */
  function UpdateCustomReference(customRefs: seq<CustomReference>, items: seq<Item>, id: int, name: string,
                                 referenceIds: seq<int>): (r: (seq<CustomReference>, seq<Item>, bool))
    ensures r.2
    ensures |r.0| == |customRefs|
    ensures forall k :: 0 <= k < |customRefs| ==> r.0[k] == if customRefs[k].id == id then customRefs[k].(name := name) else customRefs[k]
    ensures ItemsOf(r.1, id) == referenceIds
    ensures forall other :: other != id ==> ItemsOf(r.1, other) == ItemsOf(items, other)
  {
    var renamed := seq(|customRefs|, k requires 0 <= k < |customRefs| =>
      if customRefs[k].id == id then customRefs[k].(name := name) else customRefs[k]);
    var kept := WithoutItems(items, id);
    var added := NewItems(id, referenceIds);
    forall other ensures ItemsOf(kept + added, other) == if other == id then referenceIds else ItemsOf(items, other) {
      ItemsOfAppend(kept, added, other);
      ItemsOfWithout(items, id, other);
      ItemsOfNew(id, referenceIds, other);
    }
    (renamed, kept + added, true)
  }

  /** Saving the same selection twice gives the tables one save gives. */
  lemma UpdateCustomReferenceIdempotent(customRefs: seq<CustomReference>, items: seq<Item>, id: int, name: string,
                                        referenceIds: seq<int>)
    ensures var once := UpdateCustomReference(customRefs, items, id, name, referenceIds);
      UpdateCustomReference(once.0, once.1, id, name, referenceIds) == once
  {
    var once := UpdateCustomReference(customRefs, items, id, name, referenceIds);
    var kept := WithoutItems(items, id);
    var added := NewItems(id, referenceIds);
    WithoutAppend(kept, added, id);
    assert forall k :: 0 <= k < |kept| ==> kept[k] in kept;
    WithoutNone(kept, id);
    WithoutAll(added, id);
    assert once.1 == kept + added;
    assert WithoutItems(once.1, id) == kept;
    var twice := UpdateCustomReference(once.0, once.1, id, name, referenceIds);
    assert twice.1 == once.1;
    assert twice.0 == once.0;
  }

  lemma {:induction false} WithoutAppend(a: seq<Item>, b: seq<Item>, id: int)
    ensures WithoutItems(a + b, id) == WithoutItems(a, id) + WithoutItems(b, id)
  {
    if a == [] {
      assert a + b == b;
    } else {
      assert (a + b)[0] == a[0] && (a + b)[1..] == a[1..] + b;
      WithoutAppend(a[1..], b, id);
      var head := if a[0].customRefId == id then [] else [a[0]];
      assert WithoutItems(a + b, id) == head + (WithoutItems(a[1..], id) + WithoutItems(b, id));
      assert head + (WithoutItems(a[1..], id) + WithoutItems(b, id)) == (head + WithoutItems(a[1..], id)) + WithoutItems(b, id);
    }
  }

  lemma {:induction false} WithoutNone(items: seq<Item>, id: int)
    requires forall k :: 0 <= k < |items| ==> items[k].customRefId != id
    ensures WithoutItems(items, id) == items
  {
    if items != [] {
      WithoutNone(items[1..], id);
    }
  }

  lemma {:induction false} WithoutAll(items: seq<Item>, id: int)
    requires forall k :: 0 <= k < |items| ==> items[k].customRefId == id
    ensures WithoutItems(items, id) == []
  {
    if items != [] {
      WithoutAll(items[1..], id);
    }
  }
}
