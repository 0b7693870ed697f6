/**
 * The HTTP server around the recorder: the `running` flag that guards
 * `/mapear` and `/stop`, the map-file name check, the listing of saved maps,
 * and the in-place renaming of step keys in a saved map. Files are a map
 * from file name to parsed JSON; reading, writing and parsing are not
 * modelled.
 */
module Server {
  import opened Wrappers
  import opened JsText
  import opened Interactions
  import opened Assembly
  import opened Capture

  // ---------------------------------------------------------------- JSON values

  /** A parsed JSON value. Numbers are integers here, and an object is a map
      from member name to value (member order is not kept). */
  datatype Json =
    | JNull
    | JBool(b: bool)
    | JNum(n: int)
    | JStr(s: string)
    | JArr(items: seq<Json>)
    | JObj(fields: map<string, Json>)

  /** The reply of a route: its status code and, on success, the JSON sent. */
  datatype Reply = Reply(status: nat, payload: Option<Json>)

  // ---------------------------------------------------------------- file names

  /** The path with its trailing slashes removed. */
  function StripTrailingSlashes(s: string): (r: string)
    ensures r <= s
    ensures r == [] || r[|r| - 1] != '/'
    ensures forall i :: |r| <= i < |s| ==> s[i] == '/'
  {
    if s != [] && s[|s| - 1] == '/' then StripTrailingSlashes(s[..|s| - 1]) else s
  }

  /** The part of the path after its last slash. */
  function AfterLastSlash(s: string): (r: string)
    ensures |r| <= |s| && r == s[|s| - |r|..]
    ensures '/' !in r
    ensures |r| < |s| ==> s[|s| - |r| - 1] == '/'
  {
    if s == [] then []
    else if s[|s| - 1] == '/' then []
    else AfterLastSlash(s[..|s| - 1]) + [s[|s| - 1]]
  }

  /** `path.basename(p)` (POSIX): the last segment, trailing slashes ignored. */
  function Basename(p: string): (r: string)
    ensures '/' !in r
    ensures var stripped := StripTrailingSlashes(p);
      stripped <= p && |r| <= |stripped| && r == stripped[|stripped| - |r|..]
    ensures var stripped := StripTrailingSlashes(p);
      |r| < |stripped| ==> stripped[|stripped| - |r| - 1] == '/'
  {
    AfterLastSlash(StripTrailingSlashes(p))
  }

  /** The name check of `GET /mapas/:nome` and `POST /mapas/:nome/keys`: the
      base name is used, and it must end in `.json` in any letter case;
      otherwise the route answers 400. */
  function SafeMapName(nome: string): Result<string, nat> {
    var safe := Basename(nome);
    if EndsWith(Lower(safe), ".json") then Ok(safe) else Err(400)
  }

  /** A name passes exactly when its base name ends in `.json`; what passes
      is that base name: one path segment (no separator, not `.` or `..`)
      taken from the end of the requested name, so it names a file inside
      the map directory. */
  lemma SafeMapNameStaysInDirectory(nome: string)
    ensures SafeMapName(nome).Ok? <==> EndsWith(Lower(Basename(nome)), ".json")
    ensures SafeMapName(nome).Err? ==> SafeMapName(nome).error == 400
    ensures SafeMapName(nome).Ok? ==>
      var safe := SafeMapName(nome).value;
      safe == Basename(nome) && '/' !in safe && safe != "." && safe != ".." && |safe| >= 5
  {
    var safe := Basename(nome);
    assert |Lower(safe)| == |safe|;
  }

  /** The file `start` is told to write for `nomeArquivo`. */
  function MapFileName(nomeArquivo: string): string {
    "mapa_" + nomeArquivo + ".json"
  }

  // ---------------------------------------------------------------- listing

  /** `f.toLowerCase().endsWith('.json')` */
  predicate IsJsonName(f: string) {
    EndsWith(Lower(f), ".json")
  }

  function JsonNames(files: seq<string>): (r: seq<string>)
    ensures forall f :: f in r <==> f in files && IsJsonName(f)
    ensures multiset(r) <= multiset(files)
  {
    if files == [] then []
    else
      assert files == [files[0]] + files[1..];
      if IsJsonName(files[0]) then [files[0]] + JsonNames(files[1..])
      else JsonNames(files[1..])
  }

  /** The default order of `Array.prototype.sort` on strings: code by code,
      a proper prefix first. */
  predicate LexLe(a: string, b: string) {
    a == [] || (b != [] && (a[0] < b[0] || (a[0] == b[0] && LexLe(a[1..], b[1..]))))
  }

  lemma {:induction false} LexLeTotal(a: string, b: string)
    ensures LexLe(a, b) || LexLe(b, a)
  {
    if a != [] && b != [] && a[0] == b[0] {
      LexLeTotal(a[1..], b[1..]);
    }
  }

  lemma {:induction false} LexLeTransitive(a: string, b: string, c: string)
    requires LexLe(a, b) && LexLe(b, c)
    ensures LexLe(a, c)
  {
    if a != [] && a[0] == b[0] && b[0] == c[0] {
      LexLeTransitive(a[1..], b[1..], c[1..]);
    }
  }

  predicate Sorted(s: seq<string>) {
    forall i, j :: 0 <= i < j < |s| ==> LexLe(s[i], s[j])
  }

  function Insert(x: string, s: seq<string>): (r: seq<string>)
    ensures multiset(r) == multiset(s) + multiset{x}
  {
    if s == [] then [x]
    else if LexLe(x, s[0]) then [x] + s
    else
      assert s == [s[0]] + s[1..];
      [s[0]] + Insert(x, s[1..])
  }

  /** Inserting an element no smaller than `lo` among elements no smaller
      than `lo` gives elements no smaller than `lo`. */
  lemma {:induction false} InsertLowerBound(x: string, s: seq<string>, lo: string)
    requires LexLe(lo, x)
    requires forall k :: 0 <= k < |s| ==> LexLe(lo, s[k])
    ensures forall k :: 0 <= k < |Insert(x, s)| ==> LexLe(lo, Insert(x, s)[k])
  {
    if s != [] && !LexLe(x, s[0]) {
      InsertLowerBound(x, s[1..], lo);
      var rest := Insert(x, s[1..]);
      var r := Insert(x, s);
      assert r == [s[0]] + rest;
      forall k | 0 <= k < |r| ensures LexLe(lo, r[k]) {
        if k > 0 {
          assert r[k] == rest[k - 1];
        }
      }
    }
  }

  /** An element no larger than any of a sorted sequence can go in front. */
  lemma PrependSorted(h: string, rest: seq<string>)
    requires Sorted(rest)
    requires forall k :: 0 <= k < |rest| ==> LexLe(h, rest[k])
    ensures Sorted([h] + rest)
  {
    var r := [h] + rest;
    forall i, j | 0 <= i < j < |r| ensures LexLe(r[i], r[j]) {
      assert r[j] == rest[j - 1];
      if i > 0 {
        assert r[i] == rest[i - 1];
      }
    }
  }

  /** Inserting into a sorted sequence keeps it sorted. */
  lemma {:induction false} InsertSorted(x: string, s: seq<string>)
    requires Sorted(s)
    ensures Sorted(Insert(x, s))
  {
    if s == [] {
    } else if LexLe(x, s[0]) {
      forall k | 0 <= k < |s| ensures LexLe(x, s[k]) {
        if k > 0 {
          LexLeTransitive(x, s[0], s[k]);
        }
      }
      PrependSorted(x, s);
    } else {
      LexLeTotal(x, s[0]);
      InsertSorted(x, s[1..]);
      InsertLowerBound(x, s[1..], s[0]);
      PrependSorted(s[0], Insert(x, s[1..]));
    }
  }

  /** `.sort()` on an array of strings, as insertion into a sorted prefix. */
  function Sort(s: seq<string>): (r: seq<string>)
    ensures multiset(r) == multiset(s)
  {
    if s == [] then []
    else
      assert s == [s[0]] + s[1..];
      Insert(s[0], Sort(s[1..]))
  }

  lemma {:induction false} SortSorted(s: seq<string>)
    ensures Sorted(Sort(s))
  {
    if s != [] {
      SortSorted(s[1..]);
      InsertSorted(s[0], Sort(s[1..]));
    }
  }

  /** `GET /mapas`: the directory entries whose lower-cased names end in
      `.json`, sorted. */
  function Listing(files: seq<string>): seq<string> {
    Sort(JsonNames(files))
  }

  /** The listing holds exactly the `.json` entries, each as often as in the
      directory, in sorted order. */
  lemma ListingExact(files: seq<string>)
    ensures Sorted(Listing(files))
    ensures multiset(Listing(files)) == multiset(JsonNames(files))
    ensures forall f :: f in Listing(files) <==> f in files && IsJsonName(f)
  {
    SortSorted(JsonNames(files));
    var l := Listing(files);
    forall f ensures f in l <==> f in JsonNames(files) {
      assert f in l <==> f in multiset(l);
    }
  }

  // ---------------------------------------------------------------- key remapping

  /** The index a property name denotes on an array: a canonical decimal numeral. */
  function ArrayIndex(k: string): Option<nat> {
    if k != "" && (forall i :: 0 <= i < |k| ==> IsDigit(k[i], 10)) && (k[0] != '0' || k == "0")
    then Some(NumeralValue(k, 10))
    else None
  }

  /** `hasOwnProperty.call(mapping, k) ? mapping[k] : absent`, for the object
      or array the route accepts as a mapping: an object's own member, or an
      array's element at a canonical index, or its `length`. */
  function OwnProperty(mapping: Json, k: string): Option<Json> {
    match mapping
    case JObj(fields) => if k in fields then Some(fields[k]) else None
    case JArr(items) =>
      if k == "length" then Some(JNum(|items|))
      else (match ArrayIndex(k)
        case Some(i) => if i < |items| then Some(items[i]) else None
        case None => None)
    case _ => None
  }

  /** The new key the mapping gives for `oldKey`: an own property whose value
      is a string that is not blank after trimming (`HasNonSpace`, which
      `TrimNonEmptyIff` equates with `k.trim() !== ''`). */
  function Replacement(mapping: Json, oldKey: string): Option<string> {
    match OwnProperty(mapping, oldKey)
    case Some(JStr(k)) => if HasNonSpace(k) then Some(k) else None
    case _ => None
  }

  /** A step the loop looks at: an object whose `key` is a string. */
  predicate HasStringKey(step: Json) {
    step.JObj? && "key" in step.fields && step.fields["key"].JStr?
  }

  /** One iteration of the remapping loop. */
  function RemapStep(step: Json, mapping: Json): Json {
    if HasStringKey(step) then
      match Replacement(mapping, step.fields["key"].s)
      case Some(k) => JObj(step.fields["key" := JStr(k)])
      case None => step
    else step
  }

  /** A step changes only when its key is a string that the mapping has as
      an own property with a non-blank string value (one whose trim is not
      empty, by `TrimNonEmptyIff`); it then gets exactly
      that value, looked up once by its original key (a replacement is not
      itself looked up again), and every other member stays as it was. */
  lemma RemapStepEffect(step: Json, mapping: Json)
    ensures var r := RemapStep(step, mapping);
      && (r != step ==>
            && HasStringKey(step)
            && OwnProperty(mapping, step.fields["key"].s).Some?
            && OwnProperty(mapping, step.fields["key"].s).value.JStr?
            && HasNonSpace(OwnProperty(mapping, step.fields["key"].s).value.s)
            && r.JObj? && r.fields["key"] == OwnProperty(mapping, step.fields["key"].s).value
            && r.fields.Keys == step.fields.Keys
            && forall f :: f in step.fields && f != "key" ==> r.fields[f] == step.fields[f])
      && (HasStringKey(step) && Replacement(mapping, step.fields["key"].s).Some? ==>
            r.fields["key"] == JStr(Replacement(mapping, step.fields["key"].s).value))
  {
  }

  /** Every step remapped once, in order. */
  function RemapAll(steps: seq<Json>, mapping: Json): (r: seq<Json>)
    ensures |r| == |steps|
  {
    seq(|steps|, i requires 0 <= i < |steps| => RemapStep(steps[i], mapping))
  }

  /** The remapping loop, in place on the steps array. */
  method RemapStepKeys(steps: array<Json>, mapping: Json)
    modifies steps
    ensures steps[..] == RemapAll(old(steps[..]), mapping)
  {
    ghost var before := steps[..];
    ghost var target := RemapAll(before, mapping);
    for i := 0 to steps.Length
      invariant forall k :: 0 <= k < i ==> steps[k] == target[k]
      invariant forall k :: i <= k < steps.Length ==> steps[k] == before[k]
    {
      var step := steps[i];
      if HasStringKey(step) {
        var newK := Replacement(mapping, step.fields["key"].s);
        if newK.Some? {
          steps[i] := JObj(step.fields["key" := JStr(newK.value)]);
        }
      }
      assert steps[i] == target[i];
    }
    assert steps[..] == target;
  }

  /** The map after remapping: only an object whose `steps` is an array is
      touched; reading `steps` of `null` throws (status 500); any other value
      is written back as it was. */
  function RemappedMap(mapa: Json, mapping: Json): Result<Json, nat> {
    match mapa
    case JNull => Err(500)
    case JObj(fields) =>
      if "steps" in fields && fields["steps"].JArr? then
        Ok(JObj(fields["steps" := JArr(RemapAll(fields["steps"].items, mapping))]))
      else Ok(mapa)
    case _ => Ok(mapa)
  }

  /** Remapping keeps the number of steps and every member of the map other
      than `steps`. */
  lemma RemappedMapShape(mapa: Json, mapping: Json)
    ensures RemappedMap(mapa, mapping).Err? <==> mapa == JNull
    ensures RemappedMap(mapa, mapping).Ok? && RemappedMap(mapa, mapping).value != mapa ==>
      var r := RemappedMap(mapa, mapping).value;
      && mapa.JObj? && r.JObj? && r.fields.Keys == mapa.fields.Keys
      && "steps" in mapa.fields && mapa.fields["steps"].JArr? && r.fields["steps"].JArr?
      && |r.fields["steps"].items| == |mapa.fields["steps"].items|
      && forall f :: f in mapa.fields && f != "steps" ==> r.fields[f] == mapa.fields[f]
  {
  }

  /** The parsed map with its steps' keys remapped in place. */
  method RemapDocument(mapa: Json, mapping: Json) returns (r: Json)
    requires !mapa.JNull?
    ensures RemappedMap(mapa, mapping) == Ok(r)
  {
    r := mapa;
    if mapa.JObj? && "steps" in mapa.fields && mapa.fields["steps"].JArr? {
      var items := mapa.fields["steps"].items;
      var steps := new Json[|items|](i requires 0 <= i < |items| => items[i]);
      assert steps[..] == items;
      RemapStepKeys(steps, mapping);
      r := JObj(mapa.fields["steps" := JArr(steps[..])]);
    }
  }

  /** `const { mapping } = req.body || {}`. */
  function MappingOf(body: Json): Option<Json> {
    if body.JObj? && "mapping" in body.fields then Some(body.fields["mapping"]) else None
  }

  /** `mapping && typeof mapping === 'object'`: an object or an array. */
  predicate IsMappingObject(m: Option<Json>) {
    m.Some? && (m.value.JObj? || m.value.JArr?)
  }

  // ---------------------------------------------------------------- the server

  /** The server's state: the `running` flag, the recorder it drives and the
      map directory. */
  class App {
    var running: bool
    const recorder: Recorder
    var maps: map<string, Json>

    /** The flag agrees with the recorder's own notion of a live session. */
    predicate Valid()
      reads this, recorder
    {
      running == recorder.live
    }

    constructor (directory: map<string, Json>)
      ensures Valid() && !running && maps == directory && fresh(recorder)
    {
      running := false;
      recorder := new Recorder();
      maps := directory;
    }

    /** `POST /mapear`: 409 while running, 400 unless `url`, `nomeArquivo` and
        `modo` are all truthy; otherwise a session is started with `modo` as
        its operation and no category, and the flag is set. */
    method PostMapear(url: Option<string>, nomeArquivo: Option<string>, modo: Option<string>) returns (reply: Reply)
      requires Valid()
      modifies this, recorder
      ensures Valid() && maps == old(maps)
      ensures old(running) ==> reply.status == 409 && running && unchanged(recorder)
      ensures !old(running) && !(Truthy(url) && Truthy(nomeArquivo) && Truthy(modo)) ==>
        reply.status == 400 && !running && unchanged(recorder)
      ensures !old(running) && Truthy(url) && Truthy(nomeArquivo) && Truthy(modo) ==>
        && reply.status == 200 && running
        && recorder.output == MapFileName(nomeArquivo.value)
        && recorder.live && recorder.interactions == [] && recorder.operation == modo && recorder.category == None
        && recorder.recentDownloads == map[] && recorder.ajaxCount == 0
        && recorder.lastAjaxUrl == old(recorder.lastAjaxUrl)
    {
      if running {
        return Reply(409, None);
      }
      if !(Truthy(url) && Truthy(nomeArquivo) && Truthy(modo)) {
        return Reply(400, None);
      }
      var started := recorder.Start(MapFileName(nomeArquivo.value), modo, None);
      running := true;
      reply := Reply(200, None);
    }

    /** `POST /stop`: 409 when not running; otherwise the session is stopped.
        When `stop` throws the answer is 500 and the flag stays set (the
        session is still live); when it succeeds the flag is cleared. */
    method PostStop() returns (reply: Reply, saved: Option<MapDoc>)
      requires Valid()
      modifies this, recorder
      ensures Valid() && maps == old(maps)
      ensures !old(running) ==> reply.status == 409 && !running && saved == None && unchanged(recorder)
      ensures old(running) ==>
        var assembled := AssembledMap(old(recorder.interactions), old(recorder.operation), old(recorder.category));
        && (assembled.Err? ==> reply.status == 500 && running && saved == None && unchanged(recorder))
        && (assembled.Ok? ==>
              && reply.status == 200 && !running && saved == Some(assembled.value)
              && recorder.interactions == [] && recorder.output == ""
              && recorder.operation == None && recorder.category == None
              && recorder.ajaxCount == old(recorder.ajaxCount)
              && recorder.lastAjaxUrl == old(recorder.lastAjaxUrl)
              && recorder.recentDownloads == old(recorder.recentDownloads))
    {
      if !running {
        return Reply(409, None), None;
      }
      var r := recorder.Stop();
      if r.Err? {
        return Reply(500, None), None;
      }
      running := false;
      reply, saved := Reply(200, None), Some(r.value);
    }

    /** `GET /mapas/:nome`. */
    function GetMapa(nome: string): (reply: Reply)
      reads this
      ensures reply.status == 200 <==> SafeMapName(nome).Ok? && SafeMapName(nome).value in maps
      ensures reply.status == 200 ==> reply.payload == Some(maps[SafeMapName(nome).value])
      ensures reply.status != 200 ==> reply.payload == None && (reply.status == 400 <==> SafeMapName(nome).Err?)
    {
      match SafeMapName(nome)
      case Err(code) => Reply(code, None)
      case Ok(safe) => if safe in maps then Reply(200, Some(maps[safe])) else Reply(404, None)
    }

    /** `POST /mapas/:nome/keys`: 400 for a bad name, 404 for a missing map,
        400 when the body has no object or array `mapping`, 500 when the map
        is `null`; otherwise the steps' keys are remapped in place, the map is
        stored back and returned. */
    method PostKeys(nome: string, body: Json) returns (reply: Reply)
      modifies this`maps
      ensures SafeMapName(nome).Err? ==> reply == Reply(400, None) && maps == old(maps)
      ensures SafeMapName(nome).Ok? && SafeMapName(nome).value !in old(maps) ==>
        reply == Reply(404, None) && maps == old(maps)
      ensures SafeMapName(nome).Ok? && SafeMapName(nome).value in old(maps) ==>
        var safe := SafeMapName(nome).value;
        var updated := RemappedMap(old(maps)[safe], MappingOf(body).GetOr(JNull));
        && (!IsMappingObject(MappingOf(body)) ==> reply == Reply(400, None) && maps == old(maps))
        && (IsMappingObject(MappingOf(body)) && updated.Err? ==> reply == Reply(500, None) && maps == old(maps))
        && (IsMappingObject(MappingOf(body)) && updated.Ok? ==>
              reply == Reply(200, Some(updated.value)) && maps == old(maps)[safe := updated.value])
    {
      var name := SafeMapName(nome);
      if name.Err? {
        return Reply(400, None);
      }
      var safe := name.value;
      if safe !in maps {
        return Reply(404, None);
      }
      var mapping := MappingOf(body);
      if !IsMappingObject(mapping) {
        return Reply(400, None);
      }
      if maps[safe].JNull? {
        return Reply(500, None);
      }
      var mapa := RemapDocument(maps[safe], mapping.value);
      maps := maps[safe := mapa];
      reply := Reply(200, Some(mapa));
    }
  }
}
