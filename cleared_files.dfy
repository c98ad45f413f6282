/**
  The "cleared files" soft-delete list of the CSV uploader. The list lives
  in the user's session; clearing or deleting a file appends its name, and
  uploading a file with that name again takes it back out. The index page
  shows the `.csv` files of the upload folder that are not on the list.
*/
module ClearedFiles {
  import opened PyText

  predicate NoDuplicates(s: seq<string>) {
    forall i, j :: 0 <= i < j < |s| ==> s[i] != s[j]
  }

  lemma NoDuplicatesCons(s: seq<string>)
    requires |s| > 0
    ensures NoDuplicates(s) <==> s[0] !in s[1..] && NoDuplicates(s[1..])
  {
    if s[0] !in s[1..] && NoDuplicates(s[1..]) {
      forall i, j | 0 <= i < j < |s| ensures s[i] != s[j] {
        if i > 0 {
          assert s[i] == s[1..][i - 1] && s[j] == s[1..][j - 1];
        } else {
          assert s[j] == s[1..][j - 1];
        }
      }
    }
    if NoDuplicates(s) {
      assert forall k :: 0 <= k < |s[1..]| ==> s[1..][k] == s[k + 1];
    }
  }

  // ---------------------------------------------------------------------
  // The list operations

  /** `if x not in names: names.append(x)` */
  function AddAbsent(names: seq<string>, x: string): (r: seq<string>)
    ensures x in r
    ensures names <= r
    ensures forall y :: y in r <==> y in names || y == x
  {
    if x in names then names else names + [x]
  }

  /** Appending only absent names keeps the list free of duplicates. */
  lemma AddAbsentNoDuplicates(names: seq<string>, x: string)
    requires NoDuplicates(names)
    ensures NoDuplicates(AddAbsent(names, x))
  {
    if x !in names {
      var r := names + [x];
      forall i, j | 0 <= i < j < |r| ensures r[i] != r[j] {
        if j == |names| {
          assert r[i] == names[i];
        }
      }
    }
  }

  /** The loop of `clear_selected`: each selected name in turn, appended when absent. */
  function AddAll(names: seq<string>, xs: seq<string>): seq<string>
  {
    if |xs| == 0 then names
    else AddAbsent(AddAll(names, xs[..|xs| - 1]), xs[|xs| - 1])
  }

  /** Earlier entries keep their place, and the result holds exactly the old and the selected names. */
  lemma {:induction false} AddAllSpec(names: seq<string>, xs: seq<string>)
    ensures names <= AddAll(names, xs)
    ensures forall y :: y in AddAll(names, xs) <==> y in names || y in xs
    ensures NoDuplicates(names) ==> NoDuplicates(AddAll(names, xs))
  {
    if |xs| > 0 {
      var init := xs[..|xs| - 1];
      AddAllSpec(names, init);
      if NoDuplicates(names) {
        AddAbsentNoDuplicates(AddAll(names, init), xs[|xs| - 1]);
      }
      assert xs == init + [xs[|xs| - 1]];
      forall y ensures y in xs <==> y in init || y == xs[|xs| - 1] {
        assert y in xs <==> y in init + [xs[|xs| - 1]];
      }
    }
  }

  /** Names already on the list are not added again. */
  lemma {:induction false} AddAllPresent(names: seq<string>, xs: seq<string>)
    requires forall i :: 0 <= i < |xs| ==> xs[i] in names
    ensures AddAll(names, xs) == names
  {
    if |xs| > 0 {
      AddAllPresent(names, xs[..|xs| - 1]);
    }
  }

  /** Clearing the same selection twice is the same as clearing it once. */
  lemma AddAllTwice(names: seq<string>, xs: seq<string>)
    ensures AddAll(AddAll(names, xs), xs) == AddAll(names, xs)
  {
    AddAllSpec(names, xs);
    AddAllPresent(AddAll(names, xs), xs);
  }

  /** Deleting a file twice is the same as deleting it once. */
  lemma AddAbsentTwice(names: seq<string>, x: string)
    ensures AddAbsent(AddAbsent(names, x), x) == AddAbsent(names, x)
  {
  }

  /**
   * `if x in names: names.remove(x)` is `RemoveFirst(names, x)`: one entry
   * fewer when `x` is listed, nothing changed otherwise; on a list without
   * duplicates `x` is gone afterwards and nothing else is.
   */
  lemma {:induction false} RemoveNameSpec(names: seq<string>, x: string)
    ensures x !in names ==> RemoveFirst(names, x) == names
    ensures x in names ==> |RemoveFirst(names, x)| == |names| - 1
    ensures forall y :: y in RemoveFirst(names, x) ==> y in names
    ensures NoDuplicates(names) ==> NoDuplicates(RemoveFirst(names, x))
    ensures NoDuplicates(names) ==> forall y :: y in RemoveFirst(names, x) <==> y in names && y != x
  {
    if |names| > 0 {
      NoDuplicatesCons(names);
      var rest := names[1..];
      RemoveNameSpec(rest, x);
      if names[0] != x {
        var r := [names[0]] + RemoveFirst(rest, x);
        assert r[1..] == RemoveFirst(rest, x);
        NoDuplicatesCons(r);
        assert x in names ==> x in rest;
      }
      assert names == [names[0]] + rest;
    }
  }

  /** `file and file.filename.endswith('.csv')`: an empty name fails the suffix test too. */
  predicate IsCsvName(f: string) {
    EndsWith(f, ".csv")
  }

  /** The names `upload_file` saves, in order: each `.csv` name passed through `secure`. */
  function SavedNames(files: seq<string>, secure: string -> string): (saved: seq<string>)
    ensures forall y :: y in saved <==> exists i :: 0 <= i < |files| && IsCsvName(files[i]) && y == secure(files[i])
  {
    if |files| == 0 then []
    else
      var init := SavedNames(files[..|files| - 1], secure);
      var last := files[|files| - 1];
      assert forall i :: 0 <= i < |files| - 1 ==> files[..|files| - 1][i] == files[i];
      init + (if IsCsvName(last) then [secure(last)] else [])
  }

  /** The loop of `upload_file` over the list: each saved name taken out again. */
  function UploadAll(names: seq<string>, files: seq<string>, secure: string -> string): seq<string>
  {
    if |files| == 0 then names
    else
      var r := UploadAll(names, files[..|files| - 1], secure);
      var last := files[|files| - 1];
      if IsCsvName(last) then RemoveFirst(r, secure(last)) else r
  }

  /**
   * On a list without duplicates, uploading leaves exactly the entries
   * that were not saved again, still without duplicates.
   */
  lemma {:induction false} UploadAllSpec(names: seq<string>, files: seq<string>, secure: string -> string)
    requires NoDuplicates(names)
    ensures NoDuplicates(UploadAll(names, files, secure))
    ensures forall y :: y in UploadAll(names, files, secure) <==> y in names && y !in SavedNames(files, secure)
  {
    if |files| > 0 {
      var init := files[..|files| - 1];
      var last := files[|files| - 1];
      UploadAllSpec(names, init, secure);
      var r := UploadAll(names, init, secure);
      if IsCsvName(last) {
        RemoveNameSpec(r, secure(last));
      }
    }
  }

  /** After an upload, no name that was saved is on the list. */
  lemma UploadedNotCleared(names: seq<string>, files: seq<string>, secure: string -> string, i: int)
    requires NoDuplicates(names)
    requires 0 <= i < |files| && IsCsvName(files[i])
    ensures secure(files[i]) !in UploadAll(names, files, secure)
  {
    UploadAllSpec(names, files, secure);
    assert secure(files[i]) in SavedNames(files, secure);
  }

  /** `[f for f in files if f not in cleared and f.endswith('.csv')]` */
  function Visible(files: seq<string>, cleared: seq<string>): seq<string>
  {
    if |files| == 0 then []
    else
      var rest := Visible(files[1..], cleared);
      if files[0] !in cleared && IsCsvName(files[0]) then [files[0]] + rest else rest
  }

  /** The visible files are the listed `.csv` files that are not cleared, in listing order. */
  lemma {:induction false} VisibleSpec(files: seq<string>, cleared: seq<string>)
    ensures forall f :: f in Visible(files, cleared) <==> f in files && f !in cleared && IsCsvName(f)
    ensures IsSubsequence(Visible(files, cleared), files)
  {
    if |files| > 0 {
      VisibleSpec(files[1..], cleared);
      var rest := Visible(files[1..], cleared);
      assert files == [files[0]] + files[1..];
      if files[0] !in cleared && IsCsvName(files[0]) {
        assert ([files[0]] + rest)[1..] == rest;
      }
    }
  }

  // ---------------------------------------------------------------------
  // The session list and the routes that change it

  class ClearedList {
    var names: seq<string>

    ghost predicate Valid()
      reads this
    {
      NoDuplicates(names)
    }

    /** `session.get('cleared_files', [])` on a fresh session. */
    constructor ()
      ensures names == []
      ensures Valid()
    {
      names := [];
    }

    /** The `index` route: the files of `listing` it shows, in listing order. */
    function Index(listing: seq<string>): (visible: seq<string>)
      reads this
      ensures forall f :: f in visible <==> f in listing && f !in names && IsCsvName(f)
      ensures IsSubsequence(visible, listing)
    {
      VisibleSpec(listing, names);
      Visible(listing, names)
    }

    /** The `clear_selected` route. */
    method ClearSelected(selected: seq<string>)
      modifies this
      ensures names == AddAll(old(names), selected)
      ensures old(Valid()) ==> Valid()
    {
      ghost var names0 := names;
      var i := 0;
      while i < |selected|
        invariant 0 <= i <= |selected|
        invariant names == AddAll(names0, selected[..i])
      {
        if selected[i] !in names {
          names := names + [selected[i]];
        }
        assert selected[..i + 1][..i] == selected[..i];
        i := i + 1;
      }
      assert selected[..|selected|] == selected;
      AddAllSpec(names0, selected);
    }

    /** The `delete_file` route. */
    method DeleteFile(filename: string)
      modifies this
      ensures names == AddAbsent(old(names), filename)
      ensures old(Valid()) ==> Valid()
    {
      if filename !in names {
        names := names + [filename];
      }
      if old(Valid()) {
        AddAbsentNoDuplicates(old(names), filename);
      }
    }

    /**
     * The `upload_file` route. `part` is the `files[]` part of the request,
     * None when the request has none; `secure` stands for werkzeug's
     * `secure_filename`. Gives the status (400 without the part, otherwise
     * the 302 redirect to the index) and the names it saves.
     */
    method UploadFiles(part: Option<seq<string>>, secure: string -> string) returns (status: nat, saved: seq<string>)
      modifies this
      ensures part.None? ==> status == 400 && saved == [] && names == old(names)
      ensures part.Some? ==>
        && status == 302
        && saved == SavedNames(part.value, secure)
        && names == UploadAll(old(names), part.value, secure)
      ensures old(Valid()) ==> Valid()
    {
      saved := [];
      if part.None? {
        return 400, saved;
      }
      var files := part.value;
      ghost var names0 := names;
      var i := 0;
      while i < |files|
        invariant 0 <= i <= |files|
        invariant saved == SavedNames(files[..i], secure)
        invariant names == UploadAll(names0, files[..i], secure)
      {
        var f := files[i];
        assert files[..i + 1][..i] == files[..i];
        if EndsWith(f, ".csv") {
          var filename := secure(f);
          saved := saved + [filename];
          if filename in names {
            names := RemoveFirst(names, filename);
          } else {
            RemoveNameSpec(names, filename);
          }
        }
        i := i + 1;
      }
      assert files[..|files|] == files;
      if old(Valid()) {
        UploadAllSpec(names0, files, secure);
      }
      status := 302;
    }
  }
}
