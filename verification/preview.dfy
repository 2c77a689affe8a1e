/** The `view_json` rewrite: for every list-valued key of the metadata
    document, each object naming a `file` gets that name turned into a
    preview URL; everything else in the list passes through. A Python
    exception raised on the way is the request's outcome instead. */
module Preview {
  import opened Wrappers
  import Seqs
  import Text

  /** A JSON value as `json.load` returns it. An object keeps its entries in
      document order, one per key, as a Python dict does. */
  datatype Json =
    | Null
    | Bool(b: bool)
    | Number(n: int)
    | Str(s: string)
    | Array(items: seq<Json>)
    | Object(fields: seq<(string, Json)>)

  /** The exception a Python operation in the loop raises. */
  datatype Fault = AttributeError | TypeError

  const PreviewPrefix := "https://cuaimateam.online/api/preview?name="

  /** The position of the entry for `key`, if the object has one. */
  function KeyIndex(fields: seq<(string, Json)>, key: string): (r: Option<nat>)
    ensures r.Some? ==> r.value < |fields| && fields[r.value].0 == key
    ensures r.Some? ==> forall j :: 0 <= j < r.value ==> fields[j].0 != key
    ensures r.None? ==> forall j :: 0 <= j < |fields| ==> fields[j].0 != key
  {
    if |fields| == 0 then None
    else if fields[0].0 == key then Some(0)
    else
      match KeyIndex(fields[1..], key)
      case None => None
      case Some(i) => Some(i + 1)
  }

  /** The name a preview is asked for: `.MP4` is appended unless the
      upper-cased name already contains it. */
  function PreviewName(f: string): string {
    if Text.Contains(Text.Upper(f), ".MP4") then f else f + ".MP4"
  }

  /** The preview URL for a `file` value: the prefix, then the name with
      every `MP4` replaced by `mp4`. */
  function PreviewUrl(f: string): string {
    PreviewPrefix + Text.LowerMp4(PreviewName(f))
  }

  /** One element of a list: `"file" in obj`, then the rewrite of `obj["file"]`.
      Membership means a key for an object, an equal element for a list and
      a substring for a string; any other value cannot be searched. A `file`
      value that is not a string has no `upper`. */
  function RewriteItem(obj: Json): (r: Result<Json, Fault>)
    ensures obj.Object? && KeyIndex(obj.fields, "file").None? ==> r == Ok(obj)
    ensures r.Ok? ==> r.value.Object? == obj.Object?
    ensures (obj.Null? || obj.Bool? || obj.Number?) ==> r == Err(TypeError)
  {
    match obj
    case Object(fields) =>
      (match KeyIndex(fields, "file")
       case None => Ok(obj)
       case Some(i) =>
         (match fields[i].1
          case Str(f) => Ok(Object(fields[i := ("file", Str(PreviewUrl(f)))]))
          case _ => Err(AttributeError)))
    case Array(items) =>
      if Str("file") in items then Err(TypeError) else Ok(obj)
    case Str(s) =>
      if Text.Contains(s, "file") then Err(TypeError) else Ok(obj)
    case _ => Err(TypeError)
  }

  /** The inner loop over one list: the first element that raises ends the
      request with its exception. */
  function RewriteList(items: seq<Json>): (r: Result<seq<Json>, Fault>)
    ensures r.Ok? ==> |r.value| == |items|
  {
    if |items| == 0 then Ok([])
    else
      match RewriteItem(items[0])
      case Err(e) => Err(e)
      case Ok(x) =>
        match RewriteList(items[1..])
        case Err(e) => Err(e)
        case Ok(rest) => Ok([x] + rest)
  }

  predicate IsListField(field: (string, Json)) {
    field.1.Array?
  }

  /** The outer loop over the document's entries: list values are rewritten
      under their key, other values are skipped. */
  function ViewEntries(fields: seq<(string, Json)>): (r: Result<seq<(string, seq<Json>)>, Fault>)
  {
    if |fields| == 0 then Ok([])
    else
      var rest := ViewEntries(fields[1..]);
      if !IsListField(fields[0]) then rest
      else
        match RewriteList(fields[0].1.items)
        case Err(e) => Err(e)
        case Ok(out) =>
          match rest
          case Err(e) => Err(e)
          case Ok(entries) => Ok([(fields[0].0, out)] + entries)
  }

  /** `view_json` once the document is loaded: only an object has `items`. */
  function ViewJson(content: Json): (r: Result<seq<(string, seq<Json>)>, Fault>)
    ensures !content.Object? ==> r == Err(AttributeError)
  {
    match content
    case Object(fields) => ViewEntries(fields)
    case _ => Err(AttributeError)
  }

  // ---------------------------------------------------------------------
  // The rewrite of one list is pointwise.
  // ---------------------------------------------------------------------

  /** The list is rewritten exactly when every element is, and then element
      by element, in order. */
  lemma {:induction false} RewriteListPointwise(items: seq<Json>)
    ensures RewriteList(items).Ok? <==> forall i :: 0 <= i < |items| ==> RewriteItem(items[i]).Ok?
    ensures RewriteList(items).Ok? ==>
              forall i :: 0 <= i < |items| ==> RewriteItem(items[i]) == Ok(RewriteList(items).value[i])
    decreases |items|
  {
    if |items| > 0 {
      RewriteListPointwise(items[1..]);
      var r := RewriteList(items);
      forall i | 1 <= i < |items|
        ensures items[i] == items[1..][i - 1]
      {
      }
      if r.Ok? {
        var rest := RewriteList(items[1..]).value;
        assert r.value == [RewriteItem(items[0]).value] + rest;
        forall i | 1 <= i < |items|
          ensures RewriteItem(items[i]) == Ok(r.value[i])
        {
          assert r.value[i] == rest[i - 1];
        }
      }
    }
  }

  /** A failing list fails with the exception of its first failing element. */
  lemma {:induction false} RewriteListFirstFault(items: seq<Json>)
    requires RewriteList(items).Err?
    ensures exists i :: 0 <= i < |items| && RewriteItem(items[i]) == Err(RewriteList(items).error)
              && forall j :: 0 <= j < i ==> RewriteItem(items[j]).Ok?
    decreases |items|
  {
    var e := RewriteList(items).error;
    if RewriteItem(items[0]).Err? {
      assert RewriteItem(items[0]) == Err(e);
    } else {
      RewriteListFirstFault(items[1..]);
      var i :| 0 <= i < |items[1..]| && RewriteItem(items[1..][i]) == Err(e)
               && forall j :: 0 <= j < i ==> RewriteItem(items[1..][j]).Ok?;
      assert items[i + 1] == items[1..][i];
      forall j | 0 <= j < i + 1
        ensures RewriteItem(items[j]).Ok?
      {
        if j > 0 {
          assert items[j] == items[1..][j - 1];
        }
      }
    }
  }

  // ---------------------------------------------------------------------
  // Only list-valued keys appear in the result.
  // ---------------------------------------------------------------------

  /** The document's list-valued entries, key and items, in document order. */
  function ListEntries(fields: seq<(string, Json)>): (r: seq<(string, seq<Json>)>)
    ensures |r| <= |fields|
  {
    if |fields| == 0 then []
    else
      (if IsListField(fields[0]) then [(fields[0].0, fields[0].1.items)] else [])
      + ListEntries(fields[1..])
  }

  /** The result's keys are the list-valued keys of the document, in order,
      each holding its list rewritten. */
  lemma {:induction false} ViewOnlyLists(fields: seq<(string, Json)>)
    requires ViewEntries(fields).Ok?
    ensures var lists, out := ListEntries(fields), ViewEntries(fields).value;
      && |out| == |lists|
      && forall i :: 0 <= i < |lists| ==> out[i].0 == lists[i].0 && RewriteList(lists[i].1) == Ok(out[i].1)
    decreases |fields|
  {
    if |fields| > 0 {
      ViewOnlyLists(fields[1..]);
      var tail, lists := ListEntries(fields[1..]), ListEntries(fields);
      if IsListField(fields[0]) {
        var head := (fields[0].0, fields[0].1.items);
        assert lists == [head] + tail;
        var out, entries := ViewEntries(fields).value, ViewEntries(fields[1..]).value;
        assert out == [(head.0, RewriteList(head.1).value)] + entries;
        forall i | 1 <= i < |lists|
          ensures lists[i] == tail[i - 1] && out[i] == entries[i - 1]
        {
        }
      } else {
        assert lists == tail;
      }
    }
  }

  /** Some list-valued entry cannot be rewritten. */
  ghost predicate SomeListFails(lists: seq<(string, seq<Json>)>) {
    exists i :: 0 <= i < |lists| && RewriteList(lists[i].1).Err?
  }

  lemma SomeListFailsCons(head: (string, seq<Json>), tail: seq<(string, seq<Json>)>)
    ensures SomeListFails([head] + tail) <==> RewriteList(head.1).Err? || SomeListFails(tail)
  {
    var lists := [head] + tail;
    if RewriteList(head.1).Err? {
      assert lists[0] == head;
    }
    if SomeListFails(tail) {
      var j :| 0 <= j < |tail| && RewriteList(tail[j].1).Err?;
      assert lists[j + 1] == tail[j];
    }
    if SomeListFails(lists) {
      var j :| 0 <= j < |lists| && RewriteList(lists[j].1).Err?;
      if j > 0 {
        assert lists[j] == tail[j - 1];
      }
    }
  }

  /** The request fails exactly when the rewrite of some list-valued entry does. */
  lemma {:induction false} ViewFailsIff(fields: seq<(string, Json)>)
    ensures ViewEntries(fields).Err? <==> SomeListFails(ListEntries(fields))
    decreases |fields|
  {
    if |fields| > 0 {
      ViewFailsIff(fields[1..]);
      var tail := ListEntries(fields[1..]);
      if IsListField(fields[0]) {
        var head := (fields[0].0, fields[0].1.items);
        assert ListEntries(fields) == [head] + tail;
        SomeListFailsCons(head, tail);
      } else {
        assert ListEntries(fields) == tail;
      }
    }
  }

  // ---------------------------------------------------------------------
  // The rewrite of one object.
  // ---------------------------------------------------------------------

  /** An object naming a string `file` keeps its keys and every other entry;
      the first `file` entry now holds the preview URL. */
  lemma RewriteFileObject(fields: seq<(string, Json)>, i: nat, f: string)
    requires i < |fields| && fields[i] == ("file", Str(f))
    requires forall j :: 0 <= j < i ==> fields[j].0 != "file"
    ensures RewriteItem(Object(fields)).Ok?
    ensures var out := RewriteItem(Object(fields)).value.fields;
      && |out| == |fields|
      && (forall j :: 0 <= j < |fields| ==> out[j].0 == fields[j].0)
      && (forall j :: 0 <= j < |fields| && j != i ==> out[j] == fields[j])
      && out[i].1 == Str(PreviewUrl(f))
  {
    var k := KeyIndex(fields, "file");
    assert k.Some? && k.value == i;
  }

  /** A `file` value that is not a string raises `AttributeError`. */
  lemma RewriteNonStringFile(fields: seq<(string, Json)>, i: nat)
    requires i < |fields| && fields[i].0 == "file" && !fields[i].1.Str?
    requires forall j :: 0 <= j < i ==> fields[j].0 != "file"
    ensures RewriteItem(Object(fields)) == Err(AttributeError)
  {
    var k := KeyIndex(fields, "file");
    assert k.Some? && k.value == i;
  }

  // ---------------------------------------------------------------------
  // The preview name and URL.
  // ---------------------------------------------------------------------

  /** A string ending in `p` contains `p`. */
  lemma {:induction false} ContainsSuffix(s: string, p: string)
    ensures Text.Contains(s + p, p)
    decreases |s|
  {
    if |s| == 0 {
      assert s + p == p;
      assert (s + p)[..|p|] == p;
    } else {
      ContainsSuffix(s[1..], p);
      assert (s + p)[1..] == s[1..] + p;
    }
  }

  /** `.MP4` is appended exactly when the upper-cased name lacks it, and the
      name handed on always contains it, so asking twice changes nothing. */
  lemma PreviewNameShape(f: string)
    ensures !Text.Contains(Text.Upper(f), ".MP4") <==> PreviewName(f) == f + ".MP4"
    ensures Text.Contains(Text.Upper(PreviewName(f)), ".MP4")
    ensures PreviewName(PreviewName(f)) == PreviewName(f)
  {
    Text.UpperAppend(f, ".MP4");
    assert Text.Upper(".MP4") == ".MP4";
    ContainsSuffix(Text.Upper(f), ".MP4");
    if Text.Contains(Text.Upper(f), ".MP4") {
      assert f != f + ".MP4" by {
        assert |f + ".MP4"| == |f| + 4;
      }
    }
  }

  /** The URL is the prefix followed by the preview name with no `MP4` left,
      equal to the preview name up to the case of letters. */
  lemma PreviewUrlShape(f: string)
    ensures Text.StartsWith(PreviewUrl(f), PreviewPrefix)
    ensures var name := PreviewUrl(f)[|PreviewPrefix|..];
      && !Text.Contains(name, "MP4")
      && Text.Upper(name) == Text.Upper(PreviewName(f))
  {
    var n := PreviewName(f);
    var name := Text.LowerMp4(n);
    assert PreviewUrl(f)[..|PreviewPrefix|] == PreviewPrefix;
    assert PreviewUrl(f)[|PreviewPrefix|..] == name;
    Text.LowerMp4Complete(n);
    Text.LowerMp4Upper(n);
  }

  /** A name without `.MP4` in any case gets `.mp4` appended after its own
      `MP4`s are lowered. */
  lemma PreviewUrlAppends(f: string)
    requires !Text.Contains(Text.Upper(f), ".MP4")
    ensures PreviewUrl(f) == PreviewPrefix + Text.LowerMp4(f) + ".mp4"
  {
    Text.LowerMp4Append(f, ".MP4");
    LowerDotMp4();
  }

  lemma LowerDotMp4()
    ensures Text.LowerMp4(".MP4") == ".mp4"
  {
    var s := ".MP4";
    assert !Text.Mp4At(s);
    assert s[1..] == "MP4" && Text.Mp4At("MP4");
    assert "MP4"[3..] == "";
  }
}
