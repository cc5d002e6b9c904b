/** The three HTTP handlers and the request-body reader they share. The
    decoders the handlers call (media-type parsing, form parsing, JSON
    unmarshalling, RFC 3339 time parsing and formatting) belong to Go's
    standard library; the model receives their results as inputs and
    describes only the decisions the handlers make on them. */
module Handlers {
  import opened Results
  import Store
  import Lex

  /** The field names a form or JSON body may carry the message under, in
      order of preference. */
  const FieldNames: seq<string> := ["message", "text", "content"]

  const FormMedia: string := "application/x-www-form-urlencoded"
  const MultipartMedia: string := "multipart/form-data"
  const JsonMedia: string := "application/json"

  /** A decoded form: each field's values in order, and the form encoded
      back to `application/x-www-form-urlencoded` text, which the model
      takes from the decoder. */
  datatype Form = Form(values: map<string, seq<string>>, encoded: string)

  /** A member of a decoded JSON object: a string, or any other JSON value
      (number, boolean, null, array, object), which the reader never uses. */
  datatype JsonValue = JString(text: string) | JOther

  /** The request as the body reader sees it. `mediaType` is what parsing
      the Content-Type header produced ("" when it did not parse), `body` is
      the raw body or the error reading it, and `form` is the outcome of
      parsing the body as a form of that media type. */
  datatype Request = Request(mediaType: string, body: Result<string, string>, form: Result<Form, string>)

  /** `FormValue`: the first value of the field, "" when it has none. */
  function FormValue(form: Form, name: string): (v: string)
    ensures v != "" ==> name in form.values && |form.values[name]| > 0 && v == form.values[name][0]
    ensures (name !in form.values || form.values[name] == []) ==> v == ""
  {
    if name in form.values && |form.values[name]| > 0 then form.values[name][0] else ""
  }

  /** The first of `names` whose form value is not empty. */
  function FirstFilled(form: Form, names: seq<string>): (r: Option<string>)
    ensures r.None? <==> forall i :: 0 <= i < |names| ==> FormValue(form, names[i]) == ""
    ensures r.Some? ==> exists i :: 0 <= i < |names| && r.value == FormValue(form, names[i]) != ""
                                    && forall j :: 0 <= j < i ==> FormValue(form, names[j]) == ""
  {
    if |names| == 0 then None
    else if FormValue(form, names[0]) != "" then Some(FormValue(form, names[0]))
    else
      var r := FirstFilled(form, names[1..]);
      assert r.Some? ==> exists i :: 0 <= i < |names| && r.value == FormValue(form, names[i]) != ""
                                     && forall j :: 0 <= j < i ==> FormValue(form, names[j]) == "" by {
        if r.Some? {
          var i :| 0 <= i < |names[1..]| && r.value == FormValue(form, names[1..][i]) != ""
                   && forall j :: 0 <= j < i ==> FormValue(form, names[1..][j]) == "";
          assert forall j :: 0 <= j < i + 1 ==> FormValue(form, names[j]) == "" by {
            forall j | 0 <= j < i + 1 ensures FormValue(form, names[j]) == "" {
              if j > 0 { assert names[j] == names[1..][j - 1]; }
            }
          }
        }
      }
      assert r.None? ==> forall i :: 0 <= i < |names| ==> FormValue(form, names[i]) == "" by {
        if r.None? {
          forall i | 0 <= i < |names| ensures FormValue(form, names[i]) == "" {
            if i > 0 { assert names[i] == names[1..][i - 1]; }
          }
        }
      }
      r
  }

  /** The first of `names` the JSON object maps to a string, even an empty
      one; a member holding another kind of value is passed over. */
  function FirstString(data: map<string, JsonValue>, names: seq<string>): (r: Option<string>)
    ensures r.None? <==> forall i :: 0 <= i < |names| ==> !(names[i] in data && data[names[i]].JString?)
    ensures r.Some? ==> exists i :: 0 <= i < |names| && names[i] in data && data[names[i]] == JString(r.value)
                                    && forall j :: 0 <= j < i ==> !(names[j] in data && data[names[j]].JString?)
  {
    if |names| == 0 then None
    else if names[0] in data && data[names[0]].JString? then Some(data[names[0]].text)
    else
      var r := FirstString(data, names[1..]);
      assert r.Some? ==> exists i :: 0 <= i < |names| && names[i] in data && data[names[i]] == JString(r.value)
                                     && forall j :: 0 <= j < i ==> !(names[j] in data && data[names[j]].JString?) by {
        if r.Some? {
          var i :| 0 <= i < |names[1..]| && names[1..][i] in data && data[names[1..][i]] == JString(r.value)
                   && forall j :: 0 <= j < i ==> !(names[1..][j] in data && data[names[1..][j]].JString?);
          assert names[i + 1] == names[1..][i];
          forall j | 0 <= j < i + 1 ensures !(names[j] in data && data[names[j]].JString?) {
            if j > 0 { assert names[j] == names[1..][j - 1]; }
          }
        }
      }
      assert r.None? ==> forall i :: 0 <= i < |names| ==> !(names[i] in data && data[names[i]].JString?) by {
        if r.None? {
          forall i | 0 <= i < |names| ensures !(names[i] in data && data[names[i]].JString?) {
            if i > 0 { assert names[i] == names[1..][i - 1]; }
          }
        }
      }
      r
  }

  /** The alias rule for forms, read as a specification: `v` is the value
      of the first alias whose value is not empty, every earlier alias being
      empty, or the encoded form when every alias is empty or missing. */
  predicate FormMessage(form: Form, v: string) {
    || (exists i :: 0 <= i < |FieldNames| && v == FormValue(form, FieldNames[i]) != ""
                    && forall j :: 0 <= j < i ==> FormValue(form, FieldNames[j]) == "")
    || ((forall i :: 0 <= i < |FieldNames| ==> FormValue(form, FieldNames[i]) == "") && v == form.encoded)
  }

  /** The alias rule for JSON, read as a specification: `v` is the string
      of the first alias member holding a string, every earlier alias being
      absent or not a string, or the raw body when no alias holds one. */
  predicate JsonMessage(data: map<string, JsonValue>, raw: string, v: string) {
    || (exists i :: 0 <= i < |FieldNames| && FieldNames[i] in data && data[FieldNames[i]] == JString(v)
                    && forall j :: 0 <= j < i ==> !(FieldNames[j] in data && data[FieldNames[j]].JString?))
    || ((forall i :: 0 <= i < |FieldNames| ==> !(FieldNames[i] in data && data[FieldNames[i]].JString?)) && v == raw)
  }

  /** The message text a form carries: its first non-empty alias field, or
      the whole form encoded when every alias is empty or missing. */
  function FormContent(form: Form): (v: string)
    ensures FormMessage(form, v)
  {
    match FirstFilled(form, FieldNames)
    case Some(v) => v
    case None => form.encoded
  }

  /** The message text a JSON body carries: its first string-valued alias
      member, or the raw body when there is none. */
  function JsonContent(data: map<string, JsonValue>, raw: string): (v: string)
    ensures JsonMessage(data, raw, v)
  {
    match FirstString(data, FieldNames)
    case Some(v) => v
    case None => raw
  }

  /** The alias rule names one message: two readings of the same form
      agree. */
  lemma FormMessageUnique(form: Form, v: string, w: string)
    requires FormMessage(form, v) && FormMessage(form, w)
    ensures v == w
  {
  }

  /** The alias rule names one message for a JSON body too. */
  lemma JsonMessageUnique(data: map<string, JsonValue>, raw: string, v: string, w: string)
    requires JsonMessage(data, raw, v) && JsonMessage(data, raw, w)
    ensures v == w
  {
  }

  /** `readBodyContent`: the message text of a request, or the error that
      stopped reading it. `unmarshal` is the JSON decoder: it fails on text
      that is not a JSON object (a JSON `null` decodes to no members). */
  function ReadBodyContent(req: Request, unmarshal: string -> Result<map<string, JsonValue>, string>): (r: Result<string, string>)
    ensures req.mediaType in {FormMedia, MultipartMedia} ==>
      && (r.Success? <==> req.form.Success?)
      && (req.form.Failure? ==> r.error == req.form.error)
      && (req.form.Success? ==> FormMessage(req.form.value, r.value))
    ensures req.mediaType == JsonMedia ==>
      && (r.Success? <==> req.body.Success? && unmarshal(req.body.value).Success?)
      && (req.body.Failure? ==> r.error == req.body.error)
      && (req.body.Success? && unmarshal(req.body.value).Failure? ==> r.error == unmarshal(req.body.value).error)
      && (req.body.Success? && unmarshal(req.body.value).Success? ==>
            JsonMessage(unmarshal(req.body.value).value, req.body.value, r.value))
    ensures req.mediaType !in {FormMedia, MultipartMedia, JsonMedia} ==> r == req.body
  {
    if req.mediaType == FormMedia || req.mediaType == MultipartMedia then
      var form :- req.form;
      Success(FormContent(form))
    else if req.mediaType == JsonMedia then
      var raw :- req.body;
      var data :- unmarshal(raw);
      Success(JsonContent(data, raw))
    else
      req.body
  }

  /** Form aliases are tried in order and an empty value falls through:
      `message` wins over `text`, which wins over `content`. */
  lemma FormAliasOrder(form: Form)
    ensures FormValue(form, "message") != "" ==> FormContent(form) == FormValue(form, "message")
    ensures FormValue(form, "message") == "" && FormValue(form, "text") != "" ==>
      FormContent(form) == FormValue(form, "text")
    ensures FormValue(form, "message") == "" && FormValue(form, "text") == "" ==>
      FormContent(form) == if FormValue(form, "content") != "" then FormValue(form, "content") else form.encoded
  {
    var r := FirstFilled(form, FieldNames);
    if r.Some? {
      var i :| 0 <= i < |FieldNames| && r.value == FormValue(form, FieldNames[i]) != ""
               && forall j :: 0 <= j < i ==> FormValue(form, FieldNames[j]) == "";
      assert FieldNames[0] == "message" && FieldNames[1] == "text" && FieldNames[2] == "content";
    } else {
      assert FieldNames[0] == "message" && FieldNames[1] == "text" && FieldNames[2] == "content";
      assert FormValue(form, FieldNames[0]) == "";
      assert FormValue(form, FieldNames[1]) == "";
      assert FormValue(form, FieldNames[2]) == "";
    }
  }

  /** A form body's message is never empty unless the encoded form is: an
      empty alias value is skipped. */
  lemma FormContentNonEmpty(form: Form)
    requires form.encoded != ""
    ensures FormContent(form) != ""
  {
  }

  /** JSON aliases are tried in the same order, but the first member holding
      a string wins even when that string is empty, and a non-string member
      is skipped. */
  lemma JsonAliasOrder(data: map<string, JsonValue>, raw: string)
    ensures "message" in data && data["message"].JString? ==> JsonContent(data, raw) == data["message"].text
    ensures ("message" !in data || data["message"] == JOther) && "text" in data && data["text"].JString? ==>
      JsonContent(data, raw) == data["text"].text
    ensures (&& ("message" !in data || data["message"] == JOther) && ("text" !in data || data["text"] == JOther)
             && "content" in data && data["content"].JString?) ==> JsonContent(data, raw) == data["content"].text
    ensures (forall n :: n in FieldNames ==> n !in data || data[n] == JOther) ==> JsonContent(data, raw) == raw
  {
    var r := FirstString(data, FieldNames);
    assert FieldNames[0] == "message" && FieldNames[1] == "text" && FieldNames[2] == "content";
    if r.Some? {
      var i :| 0 <= i < |FieldNames| && FieldNames[i] in data && data[FieldNames[i]] == JString(r.value)
               && forall j :: 0 <= j < i ==> !(FieldNames[j] in data && data[FieldNames[j]].JString?);
    }
  }

  /** The difference between the two alias rules: an empty `message` field
      falls through to `text` in a form, but is the message itself in JSON. */
  lemma EmptyMessageFieldDiffers(form: Form, data: map<string, JsonValue>, raw: string, t: string)
    requires "message" in form.values && form.values["message"] == [""]
    requires "text" in form.values && form.values["text"] == [t] && t != ""
    requires data == map["message" := JString(""), "text" := JString(t)]
    ensures FormContent(form) == t
    ensures JsonContent(data, raw) == ""
  {
    FormAliasOrder(form);
    JsonAliasOrder(data, raw);
  }

  /** An HTTP answer and the store it leaves behind. */
  datatype Response = Response(status: int, db: Store.Db)

  /** `handlePost`: read the message, then store it under `key` (the
      insertion time formatted by the store). A body that cannot be read is
      answered 400 without touching the store; a store failure is 500. */
  function HandlePost(db: Store.Db, cubby: string, req: Request, unmarshal: string -> Result<map<string, JsonValue>, string>,
                      key: Store.Key, backend: Store.Backend): (resp: Response)
    ensures resp.status in {201, 400, 500}
    ensures resp.status == 400 <==> ReadBodyContent(req, unmarshal).Failure?
    ensures resp.status != 201 ==> resp.db == db
    ensures resp.status == 201 <==>
      ReadBodyContent(req, unmarshal).Success? && Store.Insert(db, cubby, key, ReadBodyContent(req, unmarshal).value, backend).Success?
    ensures resp.status == 201 ==>
      cubby in resp.db && key in resp.db[cubby] && resp.db[cubby][key] == ReadBodyContent(req, unmarshal).value
    ensures resp.status == 201 ==>
      resp.db == Store.Insert(db, cubby, key, ReadBodyContent(req, unmarshal).value, backend).value
  {
    match ReadBodyContent(req, unmarshal)
    case Failure(_) => Response(400, db)
    case Success(content) =>
      match Store.Insert(db, cubby, key, content, backend)
      case Failure(_) => Response(500, db)
      case Success(db') => Response(201, db')
  }

  /** A request that reaches the mailbox with the empty name (path "/") is
      never stored: bbolt refuses the bucket name. */
  lemma PostToEmptyCubbyFails(db: Store.Db, req: Request, unmarshal: string -> Result<map<string, JsonValue>, string>,
                              key: Store.Key, backend: Store.Backend)
    ensures HandlePost(db, "", req, unmarshal, key, backend).status != 201
    ensures HandlePost(db, "", req, unmarshal, key, backend).db == db
  {
  }

  /** `handleDelete`. Without a `notafter` query value (or with an empty
      one) the cubby is cleared; otherwise the value must parse as an
      RFC 3339 time, and every message up to and including it goes.
      `cutoffKey` is parsing the value and formatting the time back as a
      store key. */
  function HandleDelete(db: Store.Db, cubby: string, notafter: string, cutoffKey: string -> Option<Store.Key>,
                        backend: Store.Backend): (resp: Response)
    ensures resp.status in {204, 400, 500}
    ensures resp.status == 400 <==> notafter != "" && cutoffKey(notafter).None?
    ensures resp.status != 204 ==> resp.db == db
    ensures notafter == "" ==>
      (resp.status == 204 <==> Store.Clear(db, cubby, backend).Success?)
    ensures notafter == "" && resp.status == 204 ==> resp.db == Store.Clear(db, cubby, backend).value
    ensures notafter != "" && cutoffKey(notafter).Some? ==>
      (resp.status == 204 <==> Store.RemoveOldest(db, cubby, cutoffKey(notafter).value, backend).Success?)
    ensures notafter != "" && resp.status == 204 ==>
      resp.db == Store.RemoveOldest(db, cubby, cutoffKey(notafter).value, backend).value
  {
    if notafter != "" then
      match cutoffKey(notafter)
      case None => Response(400, db)
      case Some(cutoff) =>
        match Store.RemoveOldest(db, cubby, cutoff, backend)
        case Failure(_) => Response(500, db)
        case Success(db') => Response(204, db')
    else
      match Store.Clear(db, cubby, backend)
      case Failure(_) => Response(500, db)
      case Success(db') => Response(204, db')
  }

  /** A successful DELETE without a cutoff leaves the cubby with no messages
      and every other cubby as it was. */
  lemma DeleteAllEmptiesCubby(db: Store.Db, cubby: string, cutoffKey: string -> Option<Store.Key>, backend: Store.Backend)
    requires HandleDelete(db, cubby, "", cutoffKey, backend).status == 204
    ensures var after := HandleDelete(db, cubby, "", cutoffKey, backend).db;
      Store.BucketOf(after, cubby) == map[] && forall c :: c in db && c != cubby ==> c in after && after[c] == db[c]
  {
  }

  /** A successful DELETE with a cutoff keeps exactly the messages whose key
      sorts after the cutoff. */
  lemma DeleteBeforeKeepsNewer(db: Store.Db, cubby: string, notafter: string, cutoffKey: string -> Option<Store.Key>,
                               backend: Store.Backend)
    requires notafter != "" && cubby in db
    requires HandleDelete(db, cubby, notafter, cutoffKey, backend).status == 204
    ensures cutoffKey(notafter).Some?
    ensures var after := HandleDelete(db, cubby, notafter, cutoffKey, backend).db;
      cubby in after && forall k :: k in after[cubby] <==> k in db[cubby] && !Lex.Le(k, cutoffKey(notafter).value)
  {
  }

  /** Clearing a cubby that has never been written is answered 500, not
      204: bbolt reports the missing bucket and the handler passes that on. */
  lemma DeleteAllOfMissingCubbyFails(db: Store.Db, cubby: string, cutoffKey: string -> Option<Store.Key>, backend: Store.Backend)
    requires cubby !in db
    ensures HandleDelete(db, cubby, "", cutoffKey, backend) == Response(500, db)
  {
  }

  /** `handleGet`: 200 with every message of the cubby in key order, or 500
      when a stored key does not decode. `parse` is the RFC 3339 time
      parser. */
  method HandleGet<T>(db: Store.Db, cubby: string, parse: Store.Key -> Option<T>)
    returns (status: int, messages: seq<Store.Message<T>>)
    ensures status in {200, 500}
    ensures status == 200 <==> forall k :: k in Store.BucketOf(db, cubby) ==> parse(k).Some?
    ensures status == 200 ==> |messages| == |Store.BucketOf(db, cubby)|
    ensures status == 200 && cubby in db ==>
      forall ks :: Lex.Listing(ks, db[cubby].Keys) ==> messages == Store.DecodeAll(ks, db[cubby], parse).value
    ensures status == 500 ==> messages == []
  {
    var r := Store.Retrieve(db, cubby, parse);
    match r
    case Success(ms) => status, messages := 200, ms;
    case Failure(_) => status, messages := 500, [];
  }
}
