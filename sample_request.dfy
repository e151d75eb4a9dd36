/**
 * The logic of send_sample_request.js: gathering the header, query and body
 * inputs of a sample-request block (`collectValues`), choosing the
 * Content-Type, shaping the object handed to `$.ajax` (`sendSampleRequest`)
 * and resetting the inputs (`clearSampleRequest`).
 *
 * The block's elements are records; `Article` holds them in document order
 * and is the state the handlers change: the `border-danger` class on a
 * rejected input, the value of a reset input, the URL input.
 */
module SampleRequest {
  import opened Wrappers
  import opened JsObject
  import PathParams

  const HeaderFamily := "header"
  const QueryFamily := "query"
  const BodyFamily := "body"
  const JsonFamily := "body-json"
  const Checkbox := "checkbox"
  const CheckedValue := "on"
  const ContentType := "Content-Type"
  const JsonType := "application/json"
  const MultipartType := "multipart/form-data"

  /** One element of a sample-request block, with what the handlers read of it and change on it. */
  datatype Field = Field(
    family: Option<string>,    // the data-family attribute
    name: Option<string>,      // the data-name attribute
    optional: Option<string>,  // the data-optional attribute
    kind: string,              // the element's type property
    value: string,             // the element's value property
    checked: bool,
    placeholder: string,       // the placeholder property, "" when there is none
    visible: bool,             // whether jQuery's :visible selects the element
    isInput: bool,             // whether it carries the class sample-request-input
    danger: bool)              // whether it carries the class border-danger

  /** `el.dataset.optional` is truthy: the attribute is there and not empty. */
  predicate IsOptional(f: Field) {
    f.optional.Some? && f.optional.value != ""
  }

  /** The property key `inputValues[name]` uses: an absent data-name becomes "undefined". */
  function KeyOf(f: Field): string {
    if f.name.Some? then f.name.value else "undefined"
  }

  /** Whether `[data-family="family"]:visible` selects the element. */
  predicate Selected(f: Field, family: string) {
    f.family == Some(family) && f.visible
  }

  /**
   * The value the loop over the family stores for the element, or `None`
   * where the callback returns early: an element outside the family, an
   * unchecked checkbox, an empty input that is not optional.
   */
  function Accepted(f: Field, family: string): (r: Option<string>)
    ensures r.Some? ==> Selected(f, family)
    ensures Selected(f, family) && f.kind == Checkbox ==> r == (if f.checked then Some(CheckedValue) else None)
    ensures Selected(f, family) && f.kind != Checkbox ==> (r.None? <==> f.value == "" && !IsOptional(f))
    ensures r.Some? && f.kind != Checkbox ==> r == Some(f.value)
  {
    if !Selected(f, family) then None
    else if f.kind == Checkbox then (if f.checked then Some(CheckedValue) else None)
    else if f.value == "" && !IsOptional(f) then None
    else Some(f.value)
  }

  /** The elements the loop marks with `border-danger`. */
  predicate Rejected(f: Field, family: string)
    ensures Rejected(f, family) <==> Selected(f, family) && f.kind != Checkbox && Accepted(f, family).None?
  {
    Selected(f, family) && f.kind != Checkbox && f.value == "" && !IsOptional(f)
  }

  /** `inputValues` after the loop over `fs` for one family. */
  function Gather(fs: seq<Field>, family: string): (r: Object)
    ensures r.Valid()
    ensures ProtoKey !in r.values
  {
    if fs == [] then
      EmptyValid();
      Empty
    else
      Store(Gather(fs[..|fs| - 1], family), fs[|fs| - 1], family)
  }

  /** `inputValues` after the callback for element `f`. */
  function Store(acc: Object, f: Field, family: string): (r: Object)
    requires acc.Valid() && ProtoKey !in acc.values
    ensures r.Valid() && ProtoKey !in r.values
  {
    if Accepted(f, family).Some? then Assign(acc, KeyOf(f), Accepted(f, family).value) else acc
  }

  /** Element `f` stores a value under key `k` in the family's object. */
  ghost predicate Contributes(f: Field, family: string, k: string) {
    Accepted(f, family).Some? && KeyOf(f) == k
  }

  /** Element `i` is the last one to store under `k`. */
  ghost predicate LastContribution(fs: seq<Field>, family: string, k: string, i: int) {
    && 0 <= i < |fs|
    && Contributes(fs[i], family, k)
    && forall j :: i < j < |fs| ==> !Contributes(fs[j], family, k)
  }

  /** The family's object has a key exactly when some element stores under it. */
  lemma {:induction false} GatherHasKey(fs: seq<Field>, family: string, k: string)
    requires k != ProtoKey
    ensures Get(Gather(fs, family), k).Some? <==> exists i :: 0 <= i < |fs| && Contributes(fs[i], family, k)
  {
    if fs != [] {
      var n := |fs| - 1;
      var init := fs[..n];
      GatherHasKey(init, family, k);
      GatherStep(fs, family, k);
      if Contributes(fs[n], family, k) {
        assert Get(Gather(fs, family), k).Some?;
      } else if Get(Gather(init, family), k).Some? {
        var i :| 0 <= i < n && Contributes(init[i], family, k);
        assert fs[i] == init[i];
      } else {
        forall i | 0 <= i < |fs| ensures !Contributes(fs[i], family, k) {
          if i < n {
            assert fs[i] == init[i];
          }
        }
      }
    }
  }

  /** The value under a key is the one the last element storing under it stores: a later input overwrites. */
  lemma {:induction false} GatherLastWins(fs: seq<Field>, family: string, k: string, i: int)
    requires k != ProtoKey && LastContribution(fs, family, k, i)
    ensures Get(Gather(fs, family), k) == Accepted(fs[i], family)
  {
    var n := |fs| - 1;
    GatherStep(fs, family, k);
    if i < n {
      var init := fs[..n];
      assert !Contributes(fs[n], family, k);
      assert LastContribution(init, family, k, i) by {
        forall j | i < j < |init| ensures !Contributes(init[j], family, k) {
          assert init[j] == fs[j];
        }
      }
      GatherLastWins(init, family, k, i);
    }
  }

  /** What the last element does to the value under `k`. */
  lemma GatherStep(fs: seq<Field>, family: string, k: string)
    requires fs != [] && k != ProtoKey
    ensures Get(Gather(fs, family), k) ==
              if Contributes(fs[|fs| - 1], family, k) then Accepted(fs[|fs| - 1], family)
              else Get(Gather(fs[..|fs| - 1], family), k)
  {
  }

  /** Element `i` is the first one to store under `k`. */
  ghost predicate FirstContribution(fs: seq<Field>, family: string, k: string, i: int) {
    && 0 <= i < |fs|
    && Contributes(fs[i], family, k)
    && forall j :: 0 <= j < i ==> !Contributes(fs[j], family, k)
  }

  /** `x` comes before `y` in `ks`. */
  ghost predicate Before(ks: seq<string>, x: string, y: string) {
    exists a, b :: 0 <= a < b < |ks| && ks[a] == x && ks[b] == y
  }

  /**
   * The keys of the family's object are in the order in which they are first
   * stored: overwriting a key later does not move it.
   */
  lemma {:induction false} GatherKeyOrder(fs: seq<Field>, family: string, k1: string, k2: string, i: int, j: int)
    requires k1 != ProtoKey && k2 != ProtoKey && i < j
    requires FirstContribution(fs, family, k1, i) && FirstContribution(fs, family, k2, j)
    ensures Before(Gather(fs, family).keys, k1, k2)
  {
    var n := |fs| - 1;
    var init := fs[..n];
    var before := Gather(init, family);
    assert Gather(fs, family) == Store(before, fs[n], family);
    assert forall m :: 0 <= m < n ==> init[m] == fs[m];
    if j < n {
      assert FirstContribution(init, family, k1, i);
      assert FirstContribution(init, family, k2, j);
      GatherKeyOrder(init, family, k1, k2, i, j);
      var a, b :| 0 <= a < b < |before.keys| && before.keys[a] == k1 && before.keys[b] == k2;
      var after := Gather(fs, family).keys;
      assert after[..|before.keys|] == before.keys;
      assert after[a] == k1 && after[b] == k2;
    } else {
      GatherHasKey(init, family, k1);
      GatherHasKey(init, family, k2);
      assert k1 in before.keys;
      assert k2 !in before.keys;
      var a :| 0 <= a < |before.keys| && before.keys[a] == k1;
      var after := Gather(fs, family).keys;
      assert after == before.keys + [k2];
      assert after[a] == k1 && after[|before.keys|] == k2;
    }
  }

  /** An element that stores nothing can be taken away without changing the object, its key order included. */
  lemma {:induction false} SkippedElementIrrelevant(fs: seq<Field>, family: string, i: nat)
    requires i < |fs| && Accepted(fs[i], family).None?
    ensures Gather(fs, family) == Gather(fs[..i] + fs[i + 1..], family)
  {
    var n := |fs| - 1;
    if i == n {
      assert fs[..i] + fs[i + 1..] == fs[..n];
    } else {
      var init := fs[..n];
      SkippedElementIrrelevant(init, family, i);
      var shorter := fs[..i] + fs[i + 1..];
      assert shorter[..|shorter| - 1] == init[..i] + init[i + 1..];
      assert shorter[|shorter| - 1] == fs[n];
      calc {
        Gather(fs, family);
        Store(Gather(init, family), fs[n], family);
        Store(Gather(init[..i] + init[i + 1..], family), fs[n], family);
        Store(Gather(shorter[..|shorter| - 1], family), shorter[|shorter| - 1], family);
        Gather(shorter, family);
      }
    }
  }

  /** An unchecked checkbox never produces an entry. */
  lemma UncheckedCheckboxNoEntry(fs: seq<Field>, family: string, k: string)
    requires k != ProtoKey
    requires forall i :: 0 <= i < |fs| && KeyOf(fs[i]) == k && Selected(fs[i], family) ==>
               fs[i].kind == Checkbox && !fs[i].checked
    ensures Get(Gather(fs, family), k) == None
  {
    GatherHasKey(fs, family, k);
  }

  /** The last element storing under a key decides its value: "on" for a checked checkbox, whatever its value. */
  lemma CheckedCheckboxOn(fs: seq<Field>, family: string, i: nat)
    requires i < |fs| && KeyOf(fs[i]) != ProtoKey
    requires Selected(fs[i], family) && fs[i].kind == Checkbox && fs[i].checked
    requires forall j :: i < j < |fs| ==> !Contributes(fs[j], family, KeyOf(fs[i]))
    ensures Get(Gather(fs, family), KeyOf(fs[i])) == Some(CheckedValue)
  {
    assert LastContribution(fs, family, KeyOf(fs[i]), i);
    GatherLastWins(fs, family, KeyOf(fs[i]), i);
  }

  /** An empty optional element that stores last under its key leaves "" there. */
  lemma OptionalEmptyStored(fs: seq<Field>, family: string, i: nat)
    requires i < |fs| && KeyOf(fs[i]) != ProtoKey
    requires Selected(fs[i], family) && fs[i].kind != Checkbox && fs[i].value == "" && IsOptional(fs[i])
    requires forall j :: i < j < |fs| ==> !Contributes(fs[j], family, KeyOf(fs[i]))
    ensures Get(Gather(fs, family), KeyOf(fs[i])) == Some("")
  {
    assert LastContribution(fs, family, KeyOf(fs[i]), i);
    GatherLastWins(fs, family, KeyOf(fs[i]), i);
  }

  /** `f` with `border-danger` added when the loop over `family` rejects it. */
  function MarkField(f: Field, family: string): (r: Field)
    ensures r.(danger := f.danger) == f
    ensures r.danger == (f.danger || Rejected(f, family))
  {
    if Rejected(f, family) then f.(danger := true) else f
  }

  /** The elements after the loop over `family`. */
  function MarkRejected(fs: seq<Field>, family: string): (r: seq<Field>)
    ensures |r| == |fs|
    ensures forall i :: 0 <= i < |fs| ==> r[i].(danger := fs[i].danger) == fs[i]
    ensures forall i :: 0 <= i < |fs| ==> r[i].danger == (fs[i].danger || Rejected(fs[i], family))
  {
    seq(|fs|, i requires 0 <= i < |fs| => MarkField(fs[i], family))
  }

  /** Rejected by the loop over one of the three families. */
  predicate RejectedAny(f: Field) {
    Rejected(f, HeaderFamily) || Rejected(f, QueryFamily) || Rejected(f, BodyFamily)
  }

  /** The elements after `collectValues`: every rejected one carries `border-danger`, nothing else changed. */
  function Flagged(fs: seq<Field>): (r: seq<Field>)
    ensures |r| == |fs|
    ensures forall i :: 0 <= i < |fs| ==> r[i].(danger := fs[i].danger) == fs[i]
    ensures forall i :: 0 <= i < |fs| ==> r[i].danger == (fs[i].danger || RejectedAny(fs[i]))
  {
    seq(|fs|, i requires 0 <= i < |fs| => if RejectedAny(fs[i]) then fs[i].(danger := true) else fs[i])
  }

  /** An empty input that is not optional is left out of its family's object and flagged. */
  lemma RejectedLeftOutAndFlagged(fs: seq<Field>, family: string, i: nat)
    requires i < |fs| && Rejected(fs[i], family)
    requires family == HeaderFamily || family == QueryFamily || family == BodyFamily
    ensures Gather(fs, family) == Gather(fs[..i] + fs[i + 1..], family)
    ensures Flagged(fs)[i].danger
  {
    SkippedElementIrrelevant(fs, family, i);
  }

  /** What the loops read of an element; the `border-danger` class is not part of it. */
  function Unmarked(f: Field): Field {
    f.(danger := false)
  }

  ghost predicate SameButMarks(fs: seq<Field>, gs: seq<Field>) {
    |fs| == |gs| && forall i :: 0 <= i < |fs| ==> Unmarked(fs[i]) == Unmarked(gs[i])
  }

  lemma SameButMarksTrans(fs: seq<Field>, gs: seq<Field>, hs: seq<Field>)
    requires SameButMarks(fs, gs) && SameButMarks(gs, hs)
    ensures SameButMarks(fs, hs)
  {
  }

  lemma MarkKeepsReads(fs: seq<Field>, family: string)
    ensures SameButMarks(fs, MarkRejected(fs, family))
  {
  }

  /** The three loops of `collectValues` together flag what `Flagged` flags. */
  lemma MarkThree(fs: seq<Field>)
    ensures MarkRejected(MarkRejected(MarkRejected(fs, HeaderFamily), QueryFamily), BodyFamily) == Flagged(fs)
  {
    var h := MarkRejected(fs, HeaderFamily);
    var q := MarkRejected(h, QueryFamily);
    var b := MarkRejected(q, BodyFamily);
    forall i | 0 <= i < |fs| ensures b[i] == Flagged(fs)[i] {
      assert Unmarked(h[i]) == Unmarked(fs[i]);
      assert Unmarked(q[i]) == Unmarked(fs[i]);
    }
  }

  lemma {:induction false} GatherIgnoresMarks(fs: seq<Field>, gs: seq<Field>, family: string)
    requires SameButMarks(fs, gs)
    ensures Gather(fs, family) == Gather(gs, family)
  {
    if fs != [] {
      var n := |fs| - 1;
      assert SameButMarks(fs[..n], gs[..n]) by {
        forall i | 0 <= i < n ensures Unmarked(fs[..n][i]) == Unmarked(gs[..n][i]) {
          assert fs[..n][i] == fs[i] && gs[..n][i] == gs[i];
        }
      }
      GatherIgnoresMarks(fs[..n], gs[..n], family);
      AcceptedIgnoresMarks(fs[n], gs[n], family);
    }
  }

  lemma AcceptedIgnoresMarks(f: Field, g: Field, family: string)
    requires Unmarked(f) == Unmarked(g)
    ensures Accepted(f, family) == Accepted(g, family) && KeyOf(f) == KeyOf(g)
  {
    assert f.family == g.family && f.visible == g.visible && f.kind == g.kind && f.checked == g.checked;
    assert f.value == g.value && f.optional == g.optional && f.name == g.name;
  }

  /** The step the loop over a family takes at element `i`. */
  lemma GatherSnoc(fs: seq<Field>, i: nat, family: string)
    requires i < |fs|
    ensures Gather(fs[..i + 1], family) ==
              if Accepted(fs[i], family).Some? then Assign(Gather(fs[..i], family), KeyOf(fs[i]), Accepted(fs[i], family).value)
              else Gather(fs[..i], family)
  {
    assert fs[..i + 1][..i] == fs[..i];
  }

  /** `root.find('[data-family="body-json"]').val()`: the value of the first such element. */
  function JsonValue(fs: seq<Field>): (r: Option<string>)
    ensures r.Some? <==> exists i :: 0 <= i < |fs| && fs[i].family == Some(JsonFamily)
    ensures r.Some? ==> exists i :: && 0 <= i < |fs| && fs[i].family == Some(JsonFamily) && fs[i].value == r.value
                                     && forall j :: 0 <= j < i ==> fs[j].family != Some(JsonFamily)
  {
    if fs == [] then None
    else if fs[0].family == Some(JsonFamily) then
      Some(fs[0].value)
    else
      var r := JsonValue(fs[1..]);
      assert forall i :: 0 < i < |fs| ==> fs[i] == fs[1..][i - 1];
      if r.Some? then
        ghost var i :| && 0 <= i < |fs[1..]| && fs[1..][i].family == Some(JsonFamily) && fs[1..][i].value == r.value
                       && forall j :: 0 <= j < i ==> fs[1..][j].family != Some(JsonFamily);
        assert fs[i + 1] == fs[1..][i];
        assert forall j :: 0 <= j < i + 1 ==> fs[j].family != Some(JsonFamily) by {
          forall j | 0 <= j < i + 1 ensures fs[j].family != Some(JsonFamily) {
            if j > 0 { assert fs[j] == fs[1..][j - 1]; }
          }
        }
        r
      else
        r
  }

  lemma {:induction false} JsonValueIgnoresMarks(fs: seq<Field>, gs: seq<Field>)
    requires SameButMarks(fs, gs)
    ensures JsonValue(fs) == JsonValue(gs)
  {
    if fs != [] {
      assert Unmarked(fs[0]) == Unmarked(gs[0]);
      assert SameButMarks(fs[1..], gs[1..]) by {
        forall i | 0 <= i < |fs| - 1 ensures Unmarked(fs[1..][i]) == Unmarked(gs[1..][i]) {
          assert Unmarked(fs[i + 1]) == Unmarked(gs[i + 1]);
        }
      }
      JsonValueIgnoresMarks(fs[1..], gs[1..]);
    }
  }

  /** `bodyJson.is(':visible')`: some body-json element is visible. */
  predicate JsonVisible(fs: seq<Field>) {
    exists i :: 0 <= i < |fs| && fs[i].family == Some(JsonFamily) && fs[i].visible
  }

  /** A visible JSON body is a JSON body: the `bodyJson.length > 0` test never fails after it. */
  lemma JsonVisibleHasValue(fs: seq<Field>)
    requires JsonVisible(fs)
    ensures JsonValue(fs).Some?
  {
  }

  /** The request body: the JSON text, or the body family's object. */
  datatype Body = Json(text: string) | Form(fields: Object)

  /** The object `collectValues` returns. */
  datatype Parameters = Parameters(header: Object, query: Object, body: Body)

  /** The Content-Type header names the kind of the body. */
  ghost predicate WellShaped(p: Parameters) {
    && p.header.Valid()
    && p.query.Valid()
    && (p.body.Form? ==> p.body.fields.Valid())
    && Get(p.header, ContentType) == Some(if p.body.Json? then JsonType else MultipartType)
  }

  /** The value `collectValues(root)` returns for a block whose elements are `fs`. */
  function Collected(fs: seq<Field>): (p: Parameters)
    ensures WellShaped(p)
    ensures Get(p.header, ContentType) == Some(if JsonVisible(fs) then JsonType else MultipartType)
    ensures forall k :: k != ContentType ==> Get(p.header, k) == Get(Gather(fs, HeaderFamily), k)
    ensures p.query == Gather(fs, QueryFamily)
    ensures JsonVisible(fs) ==> p.body == Json(JsonValue(fs).value)
    ensures !JsonVisible(fs) ==> p.body == Form(Gather(fs, BodyFamily))
  {
    var header, query, body := Gather(fs, HeaderFamily), Gather(fs, QueryFamily), Gather(fs, BodyFamily);
    var json := JsonValue(fs);
    if JsonVisible(fs) && json.Some? then
      Parameters(Assign(header, ContentType, JsonType), query, Json(json.value))
    else
      Parameters(Assign(header, ContentType, MultipartType), query, Form(body))
  }

  /** `getHydratedUrl`: `{name}` placeholders become `:name`, then `hydrate` (UrlProcessor.hydrate) fills them in. */
  function HydratedUrl(hydrate: (string, Object) -> string, dryUrl: string, query: Object): (r: string)
    ensures '{' !in dryUrl ==> r == hydrate(dryUrl, query)
  {
    var url := PathParams.ConvertPathParams(dryUrl);
    assert '{' !in dryUrl ==> url == dryUrl by {
      if '{' !in dryUrl {
        PathParams.NoBraceUnchanged(dryUrl);
      }
    }
    hydrate(url, query)
  }

  /** `requestParams.data`: unset, the body text, or the FormData entries in append order. */
  datatype Data = Unset | Text(text: string) | FormData(entries: seq<(string, string)>)

  /** The object passed to `$.ajax`; `None` stands for a property that is not set. */
  datatype Request = Request(
    url: string,
    headers: Object,
    data: Data,
    processData: Option<bool>,
    contentType: Option<bool>,
    verb: string)

  /**
   * `req` is the request `sendSampleRequest` builds from `p`: a JSON body is
   * passed on unchanged; a form body is copied entry by entry in
   * `Object.entries` order, Content-Type is removed from the headers and
   * `processData` and `contentType` are false.
   */
  ghost predicate ShapedFrom(p: Parameters, url: string, verb: string, req: Request)
    requires WellShaped(p)
  {
    && req.url == url
    && req.verb == verb
    && (p.body.Json? ==>
          && req.headers == p.header
          && req.data == Text(p.body.text)
          && req.processData == None
          && req.contentType == None)
    && (p.body.Form? ==>
          && req.headers == Delete(p.header, ContentType)
          && req.data == FormData(Entries(p.body.fields))
          && req.processData == Some(false)
          && req.contentType == Some(false))
  }

  lemma ContentTypesDiffer()
    ensures JsonType != MultipartType
  {
    assert JsonType[0] != MultipartType[0];
  }

  /** The loop appending each `[key, value]` of `Object.entries` to the FormData, in order. */
  method AppendEntries(entries: seq<(string, string)>) returns (form: seq<(string, string)>)
    ensures form == entries
  {
    form := [];
    for i := 0 to |entries|
      invariant form == entries[..i]
    {
      form := form + [entries[i]];
    }
  }

  /** The branch of `sendSampleRequest` on the Content-Type header. */
  method ShapeRequest(p: Parameters, url: string, verb: string) returns (req: Request)
    requires WellShaped(p)
    ensures ShapedFrom(p, url, verb, req)
    ensures req.data != Unset
    ensures p.body.Form? ==> Get(req.headers, ContentType) == None
  {
    ContentTypesDiffer();
    var contentTypeHeader := Get(p.header, ContentType);
    if contentTypeHeader == Some(JsonType) {
      assert p.body.Json?;
      req := Request(url, p.header, Text(p.body.text), None, None, verb);
    } else if contentTypeHeader == Some(MultipartType) {
      assert p.body.Form?;
      var form := AppendEntries(Entries(p.body.fields));
      var headers := Delete(p.header, ContentType);
      req := Request(url, headers, FormData(form), Some(false), Some(false), verb);
    } else {
      assert false;
      req := Request(url, p.header, Unset, None, None, verb);
    }
  }

  /** The value `clearSampleRequest` gives an input: its placeholder when that differs from its data-name, "" otherwise. */
  function ResetValue(f: Field): (r: string)
    ensures r == f.placeholder || r == ""
    ensures f.name.Some? && r == f.name.value ==> r == ""
  {
    if Some(f.placeholder) != f.name then f.placeholder else ""
  }

  /** The elements after the reset loop of `clearSampleRequest`. */
  function Cleared(fs: seq<Field>): (r: seq<Field>)
    ensures |r| == |fs|
    ensures forall i :: 0 <= i < |fs| ==> r[i].(value := fs[i].value) == fs[i]
    ensures forall i :: 0 <= i < |fs| ==> r[i].value == if fs[i].isInput then ResetValue(fs[i]) else fs[i].value
  {
    seq(|fs|, i requires 0 <= i < |fs| => if fs[i].isInput then fs[i].(value := ResetValue(fs[i])) else fs[i])
  }

  /** Clearing twice is clearing once. */
  lemma ClearedIdempotent(fs: seq<Field>)
    ensures Cleared(Cleared(fs)) == Cleared(fs)
  {
  }

  /**
   * After a clear, an input without a default (its placeholder is its name)
   * is empty, so the next collection rejects it unless it is optional, and an
   * input with a default stores that default.
   */
  lemma ClearThenCollect(fs: seq<Field>, i: nat, family: string)
    requires i < |fs| && fs[i].isInput && fs[i].kind != Checkbox && Selected(fs[i], family)
    ensures fs[i].name == Some(fs[i].placeholder) ==>
              Accepted(Cleared(fs)[i], family) == (if IsOptional(fs[i]) then Some("") else None)
    ensures fs[i].name == Some(fs[i].placeholder) && !IsOptional(fs[i]) ==> Rejected(Cleared(fs)[i], family)
    ensures fs[i].name != Some(fs[i].placeholder) && fs[i].placeholder != "" ==>
              Accepted(Cleared(fs)[i], family) == Some(fs[i].placeholder)
  {
  }

  /** A sample-request block (`article[data-group][data-name][data-version]`). */
  class Article {
    var fields: seq<Field>     // the elements of the block, in document order
    var url: string            // the value of the .sample-request-url input
    const defaultUrl: string   // its defaultValue

    constructor(fields: seq<Field>, url: string, defaultUrl: string)
      ensures this.fields == fields && this.url == url && this.defaultUrl == defaultUrl
    {
      this.fields := fields;
      this.url := url;
      this.defaultUrl := defaultUrl;
    }

    /** The `forEach` callback of `collectValues` for one family. */
    method CollectFamily(family: string) returns (values: Object)
      modifies this
      ensures values == Gather(old(fields), family)
      ensures fields == MarkRejected(old(fields), family)
      ensures url == old(url)
    {
      ghost var fs := fields;
      values := Empty;
      EmptyValid();
      var i := 0;
      while i < |fields|
        invariant 0 <= i <= |fields| == |fs|
        invariant values == Gather(fs[..i], family)
        invariant forall k :: 0 <= k < i ==> fields[k] == MarkField(fs[k], family)
        invariant forall k :: i <= k < |fs| ==> fields[k] == fs[k]
        invariant url == old(url)
      {
        var el := fields[i];
        GatherSnoc(fs, i, family);
        if el.family == Some(family) && el.visible {
          var value := el.value;
          var skip := false;
          if el.kind == Checkbox {
            if el.checked {
              value := CheckedValue;
            } else {
              skip := true;
            }
          }
          if !skip && value == "" && !IsOptional(el) && el.kind != Checkbox {
            fields := fields[i := el.(danger := true)];
            skip := true;
          }
          assert skip == Accepted(el, family).None?;
          if !skip {
            assert value == Accepted(el, family).value;
            values := Assign(values, KeyOf(el), value);
          }
        }
        i := i + 1;
      }
      assert fs[..i] == fs;
    }

    /** `collectValues(root)`. */
    method CollectValues() returns (p: Parameters)
      modifies this
      ensures p == Collected(old(fields))
      ensures fields == Flagged(old(fields))
      ensures url == old(url)
    {
      ghost var fs := fields;
      var header := CollectFamily(HeaderFamily);
      ghost var afterHeader := fields;
      var query := CollectFamily(QueryFamily);
      ghost var afterQuery := fields;
      var body := CollectFamily(BodyFamily);
      MarkThree(fs);
      MarkKeepsReads(fs, HeaderFamily);
      MarkKeepsReads(afterHeader, QueryFamily);
      MarkKeepsReads(afterQuery, BodyFamily);
      GatherIgnoresMarks(fs, afterHeader, QueryFamily);
      SameButMarksTrans(fs, afterHeader, afterQuery);
      GatherIgnoresMarks(fs, afterQuery, BodyFamily);
      SameButMarksTrans(fs, afterQuery, fields);
      JsonValueIgnoresMarks(fs, fields);
      assert JsonVisible(fs) == JsonVisible(fields) by {
        assert forall i :: 0 <= i < |fs| ==> Unmarked(fs[i]) == Unmarked(fields[i]);
        assert forall i :: 0 <= i < |fs| ==> fs[i].family == Unmarked(fs[i]).family && fs[i].visible == Unmarked(fs[i]).visible;
        assert forall i :: 0 <= i < |fs| ==> fields[i].family == Unmarked(fields[i]).family && fields[i].visible == Unmarked(fields[i]).visible;
      }
      var json := JsonValue(fields);
      if JsonVisible(fields) && json.Some? {
        p := Parameters(Assign(header, ContentType, JsonType), query, Json(json.value));
      } else {
        p := Parameters(Assign(header, ContentType, MultipartType), query, Form(body));
      }
    }

    /** `sendSampleRequest`, up to the call of `$.ajax`, which receives `req`. */
    method SendSampleRequest(verb: string, hydrate: (string, Object) -> string) returns (req: Request)
      modifies this
      ensures fields == Flagged(old(fields)) && url == old(url)
      ensures ShapedFrom(Collected(old(fields)), HydratedUrl(hydrate, old(url), Collected(old(fields)).query), verb, req)
    {
      var parameters := CollectValues();
      var target := HydratedUrl(hydrate, url, parameters.query);
      req := ShapeRequest(parameters, target, verb);
    }

    /** `clearSampleRequest`: every input back to its default, the URL back to its default value. */
    method ClearSampleRequest()
      modifies this
      ensures fields == Cleared(old(fields))
      ensures url == defaultUrl
    {
      var i := 0;
      ghost var fs := fields;
      while i < |fields|
        invariant 0 <= i <= |fields| == |fs|
        invariant forall k :: 0 <= k < i ==> fields[k] == Cleared(fs)[k]
        invariant forall k :: i <= k < |fs| ==> fields[k] == fs[k]
      {
        if fields[i].isInput {
          var el := fields[i];
          fields := fields[i := el.(value := ResetValue(el))];
        }
        i := i + 1;
      }
      url := defaultUrl;
    }
  }
}
