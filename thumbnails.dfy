/** Selecting the attachments to preview (`extract_thumb_list`) and the
    result the two dict-building loops must produce (`Collect`). */
module Thumbnails {
  import opened Edman
  import opened PathExt

  /** `extract_thumb_list`: the pairs `(id, extension)` of the files whose
      extension is, exactly and case-sensitively, one of `suffixes`. */
  function ExtractThumbList(files: seq<(IdArg, string)>, suffixes: seq<string>): (r: seq<(IdArg, string)>)
    ensures |r| <= |files|
    ensures forall k :: 0 <= k < |r| ==> r[k].1 in suffixes
  {
    if files == [] then [] else Keep(files[0], suffixes) + ExtractThumbList(files[1..], suffixes)
  }

  /** What the selection makes of one file: `(id, ext)` or nothing. */
  function Keep(f: (IdArg, string), suffixes: seq<string>): (r: seq<(IdArg, string)>)
    ensures |r| <= 1
    ensures forall k :: 0 <= k < |r| ==> r[k].1 in suffixes
  {
    var ext := Extension(f.1);
    if ext in suffixes then [(f.0, ext)] else []
  }

  /** The selection of a concatenation is the concatenation of the
      selections: the filter keeps the input order. */
  lemma {:induction false} ExtractThumbListAppend(a: seq<(IdArg, string)>, b: seq<(IdArg, string)>, suffixes: seq<string>)
    ensures ExtractThumbList(a + b, suffixes) == ExtractThumbList(a, suffixes) + ExtractThumbList(b, suffixes)
  {
    if a == [] {
      assert a + b == b;
    } else {
      assert (a + b)[0] == a[0];
      assert (a + b)[1..] == a[1..] + b;
      ExtractThumbListAppend(a[1..], b, suffixes);
      calc {
        ExtractThumbList(a + b, suffixes);
        Keep(a[0], suffixes) + ExtractThumbList(a[1..] + b, suffixes);
        Keep(a[0], suffixes) + (ExtractThumbList(a[1..], suffixes) + ExtractThumbList(b, suffixes));
        (Keep(a[0], suffixes) + ExtractThumbList(a[1..], suffixes)) + ExtractThumbList(b, suffixes);
      }
    }
  }

  /** One file is kept, paired with its extension, exactly when that
      extension is in the list. */
  lemma ExtractThumbListSingle(f: (IdArg, string), suffixes: seq<string>)
    ensures ExtractThumbList([f], suffixes) ==
      if Extension(f.1) in suffixes then [(f.0, Extension(f.1))] else []
  {
    assert [f][1..] == [];
  }

  /** The selection holds exactly the pairs `(id, ext)` of input files
      whose extension `ext` is in the list. */
  lemma {:induction false} ExtractThumbListMembers(files: seq<(IdArg, string)>, suffixes: seq<string>, p: (IdArg, string))
    ensures p in ExtractThumbList(files, suffixes) <==>
      exists k :: 0 <= k < |files| && p == (files[k].0, Extension(files[k].1)) && p.1 in suffixes
  {
    if files != [] {
      ExtractThumbListMembers(files[1..], suffixes, p);
      if p in ExtractThumbList(files[1..], suffixes) {
        var k :| 0 <= k < |files[1..]| && p == (files[1..][k].0, Extension(files[1..][k].1)) && p.1 in suffixes;
        assert files[k + 1] == files[1..][k];
      }
      if exists k :: 0 <= k < |files| && p == (files[k].0, Extension(files[k].1)) && p.1 in suffixes {
        var k :| 0 <= k < |files| && p == (files[k].0, Extension(files[k].1)) && p.1 in suffixes;
        if k > 0 {
          assert files[1..][k - 1] == files[k];
        }
      }
    }
  }

  /** `Keep` on a file named `stem.e` with a plain stem and extension. */
  lemma KeepPlain(id: IdArg, stem: string, e: string, sfx: seq<string>)
    requires stem != [] && '.' !in stem && '/' !in stem
    requires '.' !in e && '/' !in e
    ensures Keep((id, stem + "." + e), sfx) == if e in sfx then [(id, e)] else []
  {
    PlainExtension(stem, e);
  }

  /** Matching is case-sensitive: `c.PNG` is not selected by `png`. */
  lemma ExtractThumbListCaseSensitive(t: IdArg)
    ensures ExtractThumbList([(t, "c.PNG")], ["jpg", "png"]) == []
  {
    PlainExtension("c", "PNG");
    assert "c" + "." + "PNG" == "c.PNG";
    assert "PNG" !in ["jpg", "png"] by { assert "PNG"[0] != "png"[0]; }
    assert [(t, "c.PNG")][1..] == [];
  }

  /** `stem.e`, both without dots or slashes and a non-empty stem, has
      extension `e`. */
  lemma PlainExtension(stem: string, e: string)
    requires stem != [] && '.' !in stem && '/' !in stem
    requires '.' !in e && '/' !in e
    ensures Extension(stem + "." + e) == e
  {
    assert stem[0] != '.';
    assert HasNonDotBetween(stem, RFind(stem, '/'), |stem|);
    ExtensionOf(stem, e);
  }

  /** One result of `get_thumbnails_procedure` / `get_images_procedure`. */
  datatype Entry = Entry(data: string, suffix: string)

  /** The dict the loops build from candidates `cands`, whose per-item work
      (download, then render or encode) gives `items`: entries are added in
      order, a later id overwriting an earlier one, and the first failing
      item aborts everything with its error. */
  function Collect(cands: seq<(IdArg, string)>, items: seq<Result<string>>): (r: Result<map<IdArg, Entry>>)
    requires |items| == |cands|
    ensures r.Err? ==> exists i :: 0 <= i < |items| && items[i] == Err(r.error)
    decreases |cands|
  {
    if cands == [] then Ok(map[])
    else
      var n := |cands| - 1;
      match Collect(cands[..n], items[..n])
      case Err(e) => Err(e)
      case Ok(m) =>
        if items[n].Err? then Err(items[n].error)
        else Ok(m[cands[n].0 := Entry(items[n].value, cands[n].1)])
  }

  /** A loop that has gone through every candidate has built the whole
      result. */
  lemma CollectDone(cands: seq<(IdArg, string)>, items: seq<Result<string>>, m: map<IdArg, Entry>)
    requires |items| == |cands|
    requires Collect(cands[..|cands|], items[..|cands|]) == Ok(m)
    ensures Collect(cands, items) == Ok(m)
  {
    assert cands[..|cands|] == cands && items[..|cands|] == items;
  }

  /** One more successful item extends the dict by its entry. */
  lemma CollectStep(cands: seq<(IdArg, string)>, items: seq<Result<string>>, i: nat, m: map<IdArg, Entry>)
    requires |items| == |cands| && i < |cands|
    requires Collect(cands[..i], items[..i]) == Ok(m)
    requires items[i].Ok?
    ensures Collect(cands[..i + 1], items[..i + 1]) == Ok(m[cands[i].0 := Entry(items[i].value, cands[i].1)])
  {
    assert cands[..i + 1][..i] == cands[..i];
    assert items[..i + 1][..i] == items[..i];
  }

  /** The result is a dict exactly when every item succeeds. */
  lemma {:induction false} CollectOk(cands: seq<(IdArg, string)>, items: seq<Result<string>>)
    requires |items| == |cands|
    ensures Collect(cands, items).Ok? <==> forall i :: 0 <= i < |items| ==> items[i].Ok?
  {
    if cands != [] {
      var n := |cands| - 1;
      CollectOk(cands[..n], items[..n]);
      assert forall i :: 0 <= i < n ==> items[..n][i] == items[i];
    }
  }

  /** When item `i` is the first to fail, the whole result is its error. */
  lemma {:induction false} CollectFirstError(cands: seq<(IdArg, string)>, items: seq<Result<string>>, i: nat)
    requires |items| == |cands| && i < |items|
    requires items[i].Err?
    requires forall j :: 0 <= j < i ==> items[j].Ok?
    ensures Collect(cands, items) == Err(items[i].error)
  {
    var n := |cands| - 1;
    if i == n {
      CollectOk(cands[..n], items[..n]);
    } else {
      assert items[..n][i] == items[i];
      assert forall j :: 0 <= j < i ==> items[..n][j] == items[j];
      CollectFirstError(cands[..n], items[..n], i);
    }
  }

  /** An item failing after a successful prefix aborts the whole result
      with its error. */
  lemma CollectAbort(cands: seq<(IdArg, string)>, items: seq<Result<string>>, i: nat)
    requires |items| == |cands| && i < |items|
    requires Collect(cands[..i], items[..i]).Ok?
    requires items[i].Err?
    ensures Collect(cands, items) == Err(items[i].error)
  {
    CollectOk(cands[..i], items[..i]);
    assert forall j :: 0 <= j < i ==> items[..i][j] == items[j];
    CollectFirstError(cands, items, i);
  }

  /** A successful result has exactly the candidates' ids as keys. */
  lemma {:induction false} CollectKeys(cands: seq<(IdArg, string)>, items: seq<Result<string>>)
    requires |items| == |cands|
    requires Collect(cands, items).Ok?
    ensures Collect(cands, items).value.Keys == set i | 0 <= i < |cands| :: cands[i].0
  {
    if cands != [] {
      var n := |cands| - 1;
      CollectKeys(cands[..n], items[..n]);
      assert forall i :: 0 <= i < n ==> cands[..n][i] == cands[i];
      assert (set i | 0 <= i < |cands| :: cands[i].0) == (set i | 0 <= i < n :: cands[..n][i].0) + {cands[n].0};
    }
  }

  /** In a successful result, the entry of an id is the one built from its
      last occurrence among the candidates, with that candidate's suffix. */
  lemma {:induction false} CollectEntry(cands: seq<(IdArg, string)>, items: seq<Result<string>>, i: nat)
    requires |items| == |cands| && i < |cands|
    requires Collect(cands, items).Ok?
    requires forall j :: i < j < |cands| ==> cands[j].0 != cands[i].0
    ensures items[i].Ok? && cands[i].0 in Collect(cands, items).value
    ensures Collect(cands, items).value[cands[i].0] == Entry(items[i].value, cands[i].1)
  {
    var n := |cands| - 1;
    CollectOk(cands, items);
    if i < n {
      assert cands[..n][i] == cands[i] && items[..n][i] == items[i];
      assert forall j :: i < j < n ==> cands[..n][j] == cands[j];
      CollectEntry(cands[..n], items[..n], i);
    }
  }
}
