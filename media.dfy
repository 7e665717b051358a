/** The media-library routes: the query `list_media` builds, the fields `update_media`
    and `update_attachment_data` write, the deleting run of `bulk_delete_media`, the
    error order of `regenerate_thumbnails` and the per-type counts of `get_stats`.

    The posts table is passed in as a map from post id to what these routes ask of a
    post. Host calls whose outcome the model cannot compute are parameters: the ids
    `wp_delete_attachment` refuses to delete, and the result of regenerating an
    image's metadata. */
module Media {
  import opened Envelope
  import opened PhpArray
  import opened PhpString
  import opened Request

  /** A post: its type, whether `wp_attachment_is_image` holds, what
      `get_attached_file` returns and whether that file exists on disk. */
  datatype MediaPost = MediaPost(postType: string, isImage: bool, file: Option<string>, fileOnDisk: bool)

  type Posts = map<nat, MediaPost>

  /** `get_post($id)` finds a post, and it is an attachment. */
  predicate IsAttachment(posts: Posts, id: nat)
  {
    id in posts && posts[id].postType == "attachment"
  }

  // ------------------------------------------------------------- list_media

  /** The parameters of `list_media`; `None` is a parameter the request lacks. */
  datatype ListRequest = ListRequest(
    perPage: Option<int>, page: Option<int>, orderBy: Option<string>, order: Option<string>,
    mimeType: Option<string>, search: Option<string>)

  /** The defaults the `/media` route registers for its parameters. */
  const DefaultPerPage := 20
  const DefaultPage := 1
  const DefaultOrderBy := "date"
  const DefaultOrder := "DESC"

  /** The `WP_Query` arguments `list_media` builds; an absent filter is `None`. */
  datatype MediaQuery = MediaQuery(
    postType: string, postStatus: string, perPage: nat, paged: nat, orderBy: string, order: string,
    mimeType: Option<string>, search: Option<string>)

  /** `list_media`'s query, on the parameters with the route's defaults filled in:
      ascending only for an order that upper-cases to "ASC", descending otherwise;
      the MIME-type and search filters, which have no default, only when the
      parameter is present and not falsy. */
  function ListMediaQuery(req: ListRequest): (q: MediaQuery)
    ensures q.postType == "attachment" && q.postStatus == "inherit"
    ensures q.perPage == AbsInt(WithDefault(req.perPage, DefaultPerPage))
    ensures q.paged == AbsInt(WithDefault(req.page, DefaultPage))
    ensures q.orderBy == SanitizeKey(WithDefault(req.orderBy, DefaultOrderBy))
    ensures q.order == "ASC" || q.order == "DESC"
    ensures q.order == "ASC" <==> Upper(WithDefault(req.order, DefaultOrder)) == "ASC"
    ensures q.mimeType.Some? <==> Truthy(req.mimeType)
    ensures q.mimeType.Some? ==> q.mimeType.value == req.mimeType.value
    ensures q.search.Some? <==> Truthy(req.search)
    ensures q.search.Some? ==> q.search.value == req.search.value
  {
    MediaQuery(
      "attachment", "inherit",
      AbsInt(WithDefault(req.perPage, DefaultPerPage)), AbsInt(WithDefault(req.page, DefaultPage)),
      SanitizeKey(WithDefault(req.orderBy, DefaultOrderBy)),
      if Upper(WithDefault(req.order, DefaultOrder)) == "ASC" then "ASC" else "DESC",
      if Truthy(req.mimeType) then req.mimeType else None,
      if Truthy(req.search) then req.search else None)
  }

  /** A plain `GET /media` asks for the first page of 20 attachments, newest first,
      with no filter. */
  lemma PlainListQuery()
    ensures ListMediaQuery(ListRequest(None, None, None, None, None, None))
      == MediaQuery("attachment", "inherit", 20, 1, "date", "DESC", None, None)
  {
    SanitizeKeyFixes(DefaultOrderBy);
    assert Upper("DESC") != "ASC" by { assert Upper("DESC")[0] == 'D'; }
  }

  /** The order parameters that sort ascending are exactly the eight spellings of
      "asc" in upper and lower case. */
  lemma AscendingSpellings(order: string)
    ensures Upper(order) == "ASC" <==>
      && |order| == 3
      && (order[0] == 'a' || order[0] == 'A')
      && (order[1] == 's' || order[1] == 'S')
      && (order[2] == 'c' || order[2] == 'C')
  {
    if |order| == 3 {
      var u := Upper(order);
      UpperCharIs(order[0], 'A');
      UpperCharIs(order[1], 'S');
      UpperCharIs(order[2], 'C');
      assert u == "ASC" <==> u[0] == 'A' && u[1] == 'S' && u[2] == 'C';
    }
  }

  /** An upper-case letter comes from itself or from its lower-case form. */
  lemma UpperCharIs(c: char, u: char)
    requires 'A' <= u <= 'Z'
    ensures UpperChar(c) == u <==> c == u || c == (u as int + 32) as char
  {
  }

  /** Feeding the chosen order back in chooses it again. */
  lemma OrderStable(req: ListRequest)
    ensures var o := ListMediaQuery(req).order;
      ListMediaQuery(req.(order := Some(o))).order == o
  {
    var o := ListMediaQuery(req).order;
    if o == "DESC" {
      assert Upper(o)[0] == 'D';
    } else {
      assert Upper(o) == ['A', 'S', 'C'];
    }
  }

  // ------------------------------------------------------------- post fields

  /** The `$post_data` array handed to `wp_update_post`. */
  type PostData = map<string, Value>

  const IdField := "ID"
  const TitleField := "post_title"
  const CaptionField := "post_excerpt"
  const DescriptionField := "post_content"

  /** The post data for the selected title, caption and description: the id, plus one
      field for each value selected. */
  function PostFields(id: nat, title: Option<string>, caption: Option<string>, description: Option<string>): (d: PostData)
    ensures IdField in d && d[IdField] == Int(id)
    ensures d.Keys <= {IdField, TitleField, CaptionField, DescriptionField}
    ensures (TitleField in d <==> title.Some?) && (title.Some? ==> d[TitleField] == Str(title.value))
    ensures (CaptionField in d <==> caption.Some?) && (caption.Some? ==> d[CaptionField] == Str(caption.value))
    ensures (DescriptionField in d <==> description.Some?) && (description.Some? ==> d[DescriptionField] == Str(description.value))
  {
    var d := map[IdField := Int(id)];
    var d := if title.Some? then d[TitleField := Str(title.value)] else d;
    var d := if caption.Some? then d[CaptionField := Str(caption.value)] else d;
    if description.Some? then d[DescriptionField := Str(description.value)] else d
  }

  /** `count($post_data) > 1` holds exactly when some field besides the id is selected. */
  lemma PostFieldsCount(id: nat, title: Option<string>, caption: Option<string>, description: Option<string>)
    ensures |PostFields(id, title, caption, description)| > 1 <==> title.Some? || caption.Some? || description.Some?
  {
    var d := PostFields(id, title, caption, description);
    if title.Some? || caption.Some? || description.Some? {
      var f := if title.Some? then TitleField else if caption.Some? then CaptionField else DescriptionField;
      assert {IdField, f} <= d.Keys;
      assert |{IdField, f}| == 2;
      CardSubset({IdField, f}, d.Keys);
    } else {
      assert d.Keys == {IdField};
    }
  }

  lemma CardSubset(a: set<string>, b: set<string>)
    requires a <= b
    ensures |a| <= |b|
  {
    assert b == a + (b - a);
  }

  datatype MediaUpdated = MediaUpdated(id: nat, updated: bool)

  datatype MediaUpdateRequest = MediaUpdateRequest(
    id: int, title: Option<string>, caption: Option<string>, description: Option<string>, alt: Option<string>)

  /** `update_media`: 404 unless the post is an attachment; otherwise `wp_update_post`
      is called only when title, caption or description is present, with exactly the
      present ones, and the alt text is written on its own whenever it is present. */
  method UpdateMedia(posts: Posts, req: MediaUpdateRequest)
    returns (r: Response<MediaUpdated>, postWrite: Option<PostData>, altWrite: Option<string>)
    ensures !IsAttachment(posts, AbsInt(req.id)) ==>
      r == Err("not_found", NotFound) && postWrite.None? && altWrite.None?
    ensures IsAttachment(posts, AbsInt(req.id)) ==>
      && r == Ok(MediaUpdated(AbsInt(req.id), true))
      && (postWrite.Some? <==> req.title.Some? || req.caption.Some? || req.description.Some?)
      && altWrite == req.alt
    ensures postWrite.Some? ==> postWrite.value == PostFields(AbsInt(req.id), req.title, req.caption, req.description)
  {
    var id := AbsInt(req.id);
    if !IsAttachment(posts, id) {
      return Err("not_found", NotFound), None, None;
    }
    var postData: PostData := map[IdField := Int(id)];
    if req.title.Some? {
      postData := postData[TitleField := Str(req.title.value)];
    }
    if req.caption.Some? {
      postData := postData[CaptionField := Str(req.caption.value)];
    }
    if req.description.Some? {
      postData := postData[DescriptionField := Str(req.description.value)];
    }
    assert postData == PostFields(id, req.title, req.caption, req.description);
    PostFieldsCount(id, req.title, req.caption, req.description);
    postWrite := if |postData| > 1 then Some(postData) else None;
    altWrite := req.alt;
    r := Ok(MediaUpdated(id, true));
  }

  /** `!empty($params[$k])`: the parameter is there and is neither "" nor "0". */
  function NonEmpty(params: map<string, string>, k: string): (v: Option<string>)
    ensures v.Some? <==> k in params && !FalsyString(params[k])
    ensures v.Some? ==> v.value == params[k]
  {
    if k in params && !FalsyString(params[k]) then Some(params[k]) else None
  }

  /** `update_attachment_data`: like `update_media`, but a field is written only when
      its value is non-empty, so "" or "0" never overwrites what is stored. */
  method UpdateAttachmentData(id: nat, params: map<string, string>)
    returns (postWrite: Option<PostData>, altWrite: Option<string>)
    ensures postWrite.Some? <==>
      NonEmpty(params, "title").Some? || NonEmpty(params, "caption").Some? || NonEmpty(params, "description").Some?
    ensures postWrite.Some? ==>
      postWrite.value == PostFields(id, NonEmpty(params, "title"), NonEmpty(params, "caption"), NonEmpty(params, "description"))
    ensures altWrite == NonEmpty(params, "alt")
    ensures postWrite.Some? ==> forall f :: f in postWrite.value && f != IdField ==>
      postWrite.value[f].Str? && !FalsyString(postWrite.value[f].s)
  {
    var postData: PostData := map[IdField := Int(id)];
    if "title" in params && !FalsyString(params["title"]) {
      postData := postData[TitleField := Str(params["title"])];
    }
    if "caption" in params && !FalsyString(params["caption"]) {
      postData := postData[CaptionField := Str(params["caption"])];
    }
    if "description" in params && !FalsyString(params["description"]) {
      postData := postData[DescriptionField := Str(params["description"])];
    }
    assert postData == PostFields(id, NonEmpty(params, "title"), NonEmpty(params, "caption"), NonEmpty(params, "description"));
    PostFieldsCount(id, NonEmpty(params, "title"), NonEmpty(params, "caption"), NonEmpty(params, "description"));
    postWrite := if |postData| > 1 then Some(postData) else None;
    altWrite := if "alt" in params && !FalsyString(params["alt"]) then Some(params["alt"]) else None;
  }

  // ------------------------------------------------------------- bulk delete

  /** `absint` of each requested id. */
  function AbsIds(ids: seq<int>): (r: seq<nat>)
    ensures |r| == |ids| && forall i :: 0 <= i < |ids| ==> r[i] == AbsInt(ids[i])
  {
    seq(|ids|, i requires 0 <= i < |ids| => AbsInt(ids[i]))
  }

  /** The state of the deleting run: for each id handled so far whether it was
      deleted, and the posts still there. */
  datatype Sweep = Sweep(deleted: seq<bool>, remaining: Posts)

  /** The run over `ids`, one id at a time: an id is deleted when, at that moment, it
      names an attachment and the host does not refuse it; a deleted post is gone. */
  function Deletions(posts: Posts, ids: seq<nat>, refused: set<nat>): (s: Sweep)
    ensures |s.deleted| == |ids|
  {
    if ids == [] then Sweep([], posts)
    else
      var prev := Deletions(posts, ids[..|ids| - 1], refused);
      var id := ids[|ids| - 1];
      var ok := IsAttachment(prev.remaining, id) && id !in refused;
      Sweep(prev.deleted + [ok], if ok then prev.remaining - {id} else prev.remaining)
  }

  /** The ids whose flag is `b`, in order. */
  function Pick(ids: seq<nat>, flags: seq<bool>, b: bool): (r: seq<nat>)
    requires |flags| == |ids|
    ensures |r| <= |ids|
  {
    if ids == [] then []
    else Pick(ids[..|ids| - 1], flags[..|ids| - 1], b) + (if flags[|ids| - 1] == b then [ids[|ids| - 1]] else [])
  }

  lemma PickLast(ids: seq<nat>, flags: seq<bool>, b: bool)
    requires |flags| == |ids| > 0
    ensures var n := |ids| - 1;
      multiset(Pick(ids, flags, b))
        == multiset(Pick(ids[..n], flags[..n], b)) + (if flags[n] == b then multiset{ids[n]} else multiset{})
  {
  }

  /** Every id lands in exactly one of the two lists. */
  lemma PickPartition(ids: seq<nat>, flags: seq<bool>)
    requires |flags| == |ids|
    ensures multiset(Pick(ids, flags, true)) + multiset(Pick(ids, flags, false)) == multiset(ids)
    ensures |Pick(ids, flags, true)| + |Pick(ids, flags, false)| == |ids|
  {
    PickMultisets(ids, flags);
    assert |multiset(Pick(ids, flags, true)) + multiset(Pick(ids, flags, false))| == |multiset(ids)|;
  }

  lemma {:induction false} PickMultisets(ids: seq<nat>, flags: seq<bool>)
    requires |flags| == |ids|
    ensures multiset(Pick(ids, flags, true)) + multiset(Pick(ids, flags, false)) == multiset(ids)
  {
    if ids != [] {
      var n := |ids| - 1;
      var prefix := ids[..n];
      PickMultisets(prefix, flags[..n]);
      assert multiset(ids) == multiset(prefix) + multiset{ids[n]} by { assert ids == prefix + [ids[n]]; }
      PickLast(ids, flags, true);
      PickLast(ids, flags, false);
    }
  }

  /** What the run does, in closed form: the id at position `i` is deleted exactly
      when it names an attachment of the original table, the host does not refuse it,
      and it did not occur earlier; a post is gone exactly when it is such an
      attachment listed somewhere; every other post is kept as it was. */
  lemma {:induction false} DeletionsClosedForm(posts: Posts, ids: seq<nat>, refused: set<nat>)
    ensures var s := Deletions(posts, ids, refused);
      forall i :: 0 <= i < |ids| ==>
        (s.deleted[i] <==> IsAttachment(posts, ids[i]) && ids[i] !in refused && ids[i] !in ids[..i])
    ensures var s := Deletions(posts, ids, refused);
      forall k :: k in s.remaining <==> k in posts && !(IsAttachment(posts, k) && k !in refused && k in ids)
    ensures var s := Deletions(posts, ids, refused);
      forall k :: k in s.remaining ==> s.remaining[k] == posts[k]
  {
    if ids != [] {
      var n := |ids| - 1;
      var prefix := ids[..n];
      var id := ids[n];
      DeletionsClosedForm(posts, prefix, refused);
      var prev := Deletions(posts, prefix, refused);
      var s := Deletions(posts, ids, refused);
      assert ids == prefix + [id];
      forall i | 0 <= i < |ids|
        ensures s.deleted[i] <==> IsAttachment(posts, ids[i]) && ids[i] !in refused && ids[i] !in ids[..i]
      {
        if i < n {
          assert s.deleted[i] == prev.deleted[i];
          assert ids[..i] == prefix[..i];
        } else {
          assert ids[..i] == prefix;
        }
      }
    }
  }

  /** A deleted id is never deleted twice. */
  lemma DeletedOnce(posts: Posts, ids: seq<nat>, refused: set<nat>)
    ensures Distinct(Pick(ids, Deletions(posts, ids, refused).deleted, true))
  {
    DeletionsClosedForm(posts, ids, refused);
    PickDistinct(ids, Deletions(posts, ids, refused).deleted);
  }

  /** When every flagged id is new at its position, the flagged ids are distinct. */
  lemma {:induction false} PickDistinct(ids: seq<nat>, flags: seq<bool>)
    requires |flags| == |ids|
    requires forall i :: 0 <= i < |ids| && flags[i] ==> ids[i] !in ids[..i]
    ensures Distinct(Pick(ids, flags, true))
  {
    if ids != [] {
      var n := |ids| - 1;
      var prefix := ids[..n];
      forall i | 0 <= i < n && flags[..n][i]
        ensures prefix[i] !in prefix[..i]
      {
        assert prefix[..i] == ids[..i];
      }
      PickDistinct(prefix, flags[..n]);
      PickSubset(prefix, flags[..n]);
      var rest := Pick(prefix, flags[..n], true);
      var r := Pick(ids, flags, true);
      if flags[n] {
        assert ids[n] !in prefix by { assert ids[..n] == prefix; }
        assert r == rest + [ids[n]];
        forall i, j | 0 <= i < j < |r| ensures r[i] != r[j] {
          if j == |rest| {
            assert r[i] == rest[i] && rest[i] in rest;
          } else {
            assert r[i] == rest[i] && r[j] == rest[j];
          }
        }
      }
    }
  }

  lemma {:induction false} PickSubset(ids: seq<nat>, flags: seq<bool>)
    requires |flags| == |ids|
    ensures forall x :: x in Pick(ids, flags, true) ==> x in ids
  {
    if ids != [] {
      var n := |ids| - 1;
      PickSubset(ids[..n], flags[..n]);
      assert forall x :: x in ids[..n] ==> x in ids;
    }
  }

  datatype BulkResult = BulkResult(deleted: seq<nat>, failed: seq<nat>, deletedCount: nat)

  /** `bulk_delete_media`: each id, after `absint`, is tried in request order; it is
      deleted, and its post removed, when it names an attachment the host agrees to
      delete, and otherwise it is reported as failed. */
  method BulkDeleteMedia(posts: Posts, ids: seq<int>, refused: set<nat>)
    returns (r: BulkResult, posts': Posts)
    ensures var s := Deletions(posts, AbsIds(ids), refused);
      && r.deleted == Pick(AbsIds(ids), s.deleted, true)
      && r.failed == Pick(AbsIds(ids), s.deleted, false)
      && posts' == s.remaining
    ensures r.deletedCount == |r.deleted|
  {
    var absIds := AbsIds(ids);
    var deleted: seq<nat> := [];
    var failed: seq<nat> := [];
    posts' := posts;
    var i := 0;
    while i < |ids|
      invariant 0 <= i <= |ids|
      invariant var s := Deletions(posts, absIds[..i], refused);
        && deleted == Pick(absIds[..i], s.deleted, true)
        && failed == Pick(absIds[..i], s.deleted, false)
        && posts' == s.remaining
    {
      var id := AbsInt(ids[i]);
      assert absIds[..i + 1] == absIds[..i] + [id];
      assert absIds[..i + 1][..i] == absIds[..i];
      ghost var prev := Deletions(posts, absIds[..i], refused);
      assert Deletions(posts, absIds[..i + 1], refused).deleted[..i] == prev.deleted;
      if !IsAttachment(posts', id) {
        failed := failed + [id];
      } else if id in refused {
        failed := failed + [id];
      } else {
        deleted := deleted + [id];
        posts' := posts' - {id};
      }
      i := i + 1;
    }
    assert absIds[..i] == absIds;
    r := BulkResult(deleted, failed, |deleted|);
  }

  // ------------------------------------------------------------- regenerate

  datatype Regenerated = Regenerated(id: nat, regenerated: bool, sizes: seq<string>)

  /** `get_attached_file` gave a path and the file is on disk. */
  predicate HasFile(p: MediaPost)
  {
    p.file.Some? && !FalsyString(p.file.value) && p.fileOnDisk
  }

  /** `regenerate_thumbnails`: a missing attachment (404) is reported before a
      non-image (400), which is reported before a missing file (404); only then is the
      metadata regenerated, and its error, or its list of sizes, is passed on. */
  function RegenerateThumbnails(posts: Posts, idParam: int, generated: Response<seq<string>>): (r: Response<Regenerated>)
    ensures !IsAttachment(posts, AbsInt(idParam)) ==> r == Err("not_found", NotFound)
    ensures IsAttachment(posts, AbsInt(idParam)) && !posts[AbsInt(idParam)].isImage ==> r == Err("not_image", BadRequest)
    ensures IsAttachment(posts, AbsInt(idParam)) && posts[AbsInt(idParam)].isImage && !HasFile(posts[AbsInt(idParam)]) ==>
      r == Err("file_not_found", NotFound)
    ensures r.Ok? <==> IsAttachment(posts, AbsInt(idParam)) && posts[AbsInt(idParam)].isImage
                       && HasFile(posts[AbsInt(idParam)]) && generated.Ok?
    ensures r.Ok? ==> r.data == Regenerated(AbsInt(idParam), true, generated.data)
    ensures r.Err? && generated.Ok? ==> r.code in {"not_found", "not_image", "file_not_found"}
  {
    var id := AbsInt(idParam);
    if !IsAttachment(posts, id) then Err("not_found", NotFound)
    else if !posts[id].isImage then Err("not_image", BadRequest)
    else if !HasFile(posts[id]) then Err("file_not_found", NotFound)
    else if generated.Err? then Err(generated.code, generated.status)
    else Ok(Regenerated(id, true, generated.data))
  }

  // ------------------------------------------------------------- get_stats

  /** One row of `SELECT post_mime_type, COUNT(*) ... GROUP BY post_mime_type`. */
  datatype MimeCount = MimeCount(mime: string, count: int)

  function Mimes(rows: seq<MimeCount>): (r: seq<string>)
    ensures |r| == |rows| && forall i :: 0 <= i < |rows| ==> r[i] == rows[i].mime
  {
    seq(|rows|, i requires 0 <= i < |rows| => rows[i].mime)
  }

  /** The sum of the counts of all rows. */
  function RowTotal(rows: seq<MimeCount>): int
  {
    if rows == [] then 0 else RowTotal(rows[..|rows| - 1]) + rows[|rows| - 1].count
  }

  /** The sum of the values stored under `keys`. */
  function SumOf(keys: seq<string>, vals: map<string, int>): int
    requires forall k :: k in keys ==> k in vals
  {
    if keys == [] then 0 else SumOf(keys[..|keys| - 1], vals) + vals[keys[|keys| - 1]]
  }

  /** When a table agrees with every row's count, summing it over the rows' types
      gives the rows' total. */
  lemma {:induction false} SumMatchesRows(rows: seq<MimeCount>, vals: map<string, int>)
    requires forall i :: 0 <= i < |rows| ==> rows[i].mime in vals && vals[rows[i].mime] == rows[i].count
    ensures SumOf(Mimes(rows), vals) == RowTotal(rows)
  {
    if rows != [] {
      var n := |rows| - 1;
      SumMatchesRows(rows[..n], vals);
      assert Mimes(rows)[..n] == Mimes(rows[..n]);
    }
  }

  /** The `by_type` table after the given rows: `$by_type[$mime] = $count` for each row
      in turn. */
  function Tally(rows: seq<MimeCount>): (b: Assoc<string, int>)
    ensures b.Valid()
  {
    if rows == [] then Empty()
    else Tally(rows[..|rows| - 1]).Put(rows[|rows| - 1].mime, rows[|rows| - 1].count)
  }

  /** The table holds exactly the rows' types; with one row per type it lists them in
      row order, each with its row's count. */
  lemma TallyContents(rows: seq<MimeCount>)
    ensures forall m :: m in Tally(rows).vals <==> m in Mimes(rows)
    ensures Distinct(Mimes(rows)) ==>
      && Tally(rows).keys == Mimes(rows)
      && (forall i :: 0 <= i < |rows| ==> Tally(rows).vals[rows[i].mime] == rows[i].count)
  {
    TallyMembers(rows);
    if Distinct(Mimes(rows)) {
      TallyKeys(rows);
      TallyCounts(rows);
    }
  }

  lemma {:induction false} TallyMembers(rows: seq<MimeCount>)
    ensures forall m :: m in Tally(rows).vals <==> m in Mimes(rows)
  {
    if rows != [] {
      var n := |rows| - 1;
      TallyMembers(rows[..n]);
      assert Mimes(rows) == Mimes(rows[..n]) + [rows[n].mime];
    }
  }

  /** With one row per type, the table's keys are the types in row order. */
  lemma {:induction false} TallyKeys(rows: seq<MimeCount>)
    requires Distinct(Mimes(rows))
    ensures Tally(rows).keys == Mimes(rows)
  {
    if rows != [] {
      var n := |rows| - 1;
      var mimes := Mimes(rows);
      assert Mimes(rows[..n]) == mimes[..n];
      assert mimes == mimes[..n] + [rows[n].mime];
      TallyKeys(rows[..n]);
      TallyMembers(rows[..n]);
      assert rows[n].mime !in mimes[..n];
    }
  }

  /** With one row per type, each row's count is stored under its type. */
  lemma {:induction false} TallyCounts(rows: seq<MimeCount>)
    requires Distinct(Mimes(rows))
    ensures forall i :: 0 <= i < |rows| ==> rows[i].mime in Tally(rows).vals && Tally(rows).vals[rows[i].mime] == rows[i].count
  {
    if rows != [] {
      var n := |rows| - 1;
      var prefix := rows[..n];
      var mimes := Mimes(rows);
      assert Mimes(prefix) == mimes[..n];
      TallyCounts(prefix);
      forall i | 0 <= i < |rows| ensures rows[i].mime in Tally(rows).vals && Tally(rows).vals[rows[i].mime] == rows[i].count {
        if i < n {
          assert mimes[i] != mimes[n];
          assert prefix[i] == rows[i];
        }
      }
    }
  }

  /** `get_stats`'s counting loop: `by_type[mime] = count` and `total += count` for
      each row. `total` is the sum of all rows; with one row per MIME type, as the
      `GROUP BY` gives, `by_type` lists the types in row order with their counts and
      `total` is the sum of `by_type`. */
  method GetStats(rows: seq<MimeCount>) returns (byType: Assoc<string, int>, total: int)
    ensures byType.Valid()
    ensures total == RowTotal(rows)
    ensures forall m :: m in byType.vals <==> m in Mimes(rows)
    ensures Distinct(Mimes(rows)) ==>
      && byType.keys == Mimes(rows)
      && (forall i :: 0 <= i < |rows| ==> byType.vals[rows[i].mime] == rows[i].count)
      && total == SumOf(byType.keys, byType.vals)
  {
    byType := Empty();
    total := 0;
    var i := 0;
    while i < |rows|
      invariant 0 <= i <= |rows|
      invariant byType == Tally(rows[..i]) && total == RowTotal(rows[..i])
    {
      var row := rows[i];
      assert rows[..i + 1][..i] == rows[..i];
      byType := byType.Put(row.mime, row.count);
      total := total + row.count;
      i := i + 1;
    }
    assert rows[..i] == rows;
    TallyContents(rows);
    if Distinct(Mimes(rows)) {
      SumMatchesRows(rows, byType.vals);
    }
  }
}
