/**
 * The position record of the organisational chart and its two validators,
 * `orgNodeSchema` and `insertOrgNodeSchema`, modelled as functions from a
 * decoded JSON object to either the typed record or the list of issues the
 * validator reports.
 */
module Schema {
  import opened Wrappers

  /** A position: `id`, `name`, `title` and an optional `parentId`. */
  datatype OrgNode = OrgNode(id: string, name: string, title: string, parentId: Option<string>)

  /** A position before it has been given an id (the record without `id`). */
  datatype InsertOrgNode = InsertOrgNode(name: string, title: string, parentId: Option<string>)

  /** A decoded JSON value, as handed to the validator. */
  datatype Json =
    | JString(str: string)
    | JNumber(num: int)
    | JBool(b: bool)
    | JNull
    | JArray(items: seq<Json>)
    | JObject(fields: map<string, Json>)

  /** A JSON object; a key that is absent stands for `undefined`. */
  type RawObject = map<string, Json>

  /** Why a field was refused. */
  datatype IssueCode =
    | Required                            // the key is absent
    | NotAString                          // the value has another JSON type
    | TooSmall(minimum: nat, message: string)  // a string shorter than `minimum`

  /** One reported problem, at the path of the field it concerns. */
  datatype Issue = Issue(path: string, code: IssueCode)

  const NameRequired: string := "Name is required"
  const TitleRequired: string := "Title is required"

  /** The keys that the record schema keeps, in the order it checks them. */
  const OrgNodeKeys: set<string> := {"id", "name", "title", "parentId"}

  /** What the schema promises of a typed record: non-empty name and title. */
  predicate ValidOrgNode(n: OrgNode) {
    |n.name| >= 1 && |n.title| >= 1
  }

  predicate ValidInsertOrgNode(n: InsertOrgNode) {
    |n.name| >= 1 && |n.title| >= 1
  }

  /** The issues carried by a field result (none when it succeeded). */
  function IssuesOf<T>(r: Result<T, seq<Issue>>): seq<Issue> {
    if r.Success? then [] else r.error
  }

  /**
   * A required string field, optionally with a minimum length of one and
   * the message reported when that minimum is not met.
   */
  function RequiredString(obj: RawObject, key: string, minMessage: Option<string>): (r: Result<string, seq<Issue>>)
    ensures r.Success? <==>
      key in obj && obj[key].JString? && (minMessage.Some? ==> |obj[key].str| >= 1)
    ensures r.Success? ==> r.value == obj[key].str
    ensures r.Failure? ==> |r.error| == 1 && r.error[0].path == key
  {
    if key !in obj then Failure([Issue(key, Required)])
    else if !obj[key].JString? then Failure([Issue(key, NotAString)])
    else if minMessage.Some? && |obj[key].str| < 1 then Failure([Issue(key, TooSmall(1, minMessage.value))])
    else Success(obj[key].str)
  }

  /** An optional string field: absent is accepted as `None`; `null` is not a string. */
  function OptionalString(obj: RawObject, key: string): (r: Result<Option<string>, seq<Issue>>)
    ensures r.Success? <==> (key in obj ==> obj[key].JString?)
    ensures r.Success? ==> (r.value.Some? <==> key in obj)
    ensures r.Success? && key in obj ==> r.value == Some(obj[key].str)
    ensures r.Failure? ==> r.error == [Issue(key, NotAString)]
  {
    if key !in obj then Success(None)
    else if obj[key].JString? then Success(Some(obj[key].str))
    else Failure([Issue(key, NotAString)])
  }

  /** `orgNodeSchema`: checks every field in order, collecting all issues. */
  function ParseOrgNode(obj: RawObject): (r: Result<OrgNode, seq<Issue>>)
    ensures r.Success? ==> ValidOrgNode(r.value)
    ensures r.Failure? ==> |r.error| >= 1
  {
    var id := RequiredString(obj, "id", None);
    var name := RequiredString(obj, "name", Some(NameRequired));
    var title := RequiredString(obj, "title", Some(TitleRequired));
    var parent := OptionalString(obj, "parentId");
    if id.Success? && name.Success? && title.Success? && parent.Success? then
      Success(OrgNode(id.value, name.value, title.value, parent.value))
    else
      Failure(IssuesOf(id) + IssuesOf(name) + IssuesOf(title) + IssuesOf(parent))
  }

  /** `insertOrgNodeSchema`: the record schema with the `id` field omitted. */
  function ParseInsertOrgNode(obj: RawObject): (r: Result<InsertOrgNode, seq<Issue>>)
    ensures r.Success? ==> ValidInsertOrgNode(r.value)
    ensures r.Failure? ==> |r.error| >= 1
  {
    var name := RequiredString(obj, "name", Some(NameRequired));
    var title := RequiredString(obj, "title", Some(TitleRequired));
    var parent := OptionalString(obj, "parentId");
    if name.Success? && title.Success? && parent.Success? then
      Success(InsertOrgNode(name.value, title.value, parent.value))
    else
      Failure(IssuesOf(name) + IssuesOf(title) + IssuesOf(parent))
  }

  /** The JSON object of a record: exactly its four fields, `parentId` only when present. */
  function ToObject(n: OrgNode): RawObject {
    var base := map["id" := JString(n.id), "name" := JString(n.name), "title" := JString(n.title)];
    if n.parentId.Some? then base["parentId" := JString(n.parentId.value)] else base
  }

  /** The record with its id dropped, as `omit({ id: true })` does. */
  function OmitId(n: OrgNode): InsertOrgNode {
    InsertOrgNode(n.name, n.title, n.parentId)
  }

  /** A declarative statement of what the record schema accepts. */
  predicate Conforms(obj: RawObject) {
    && "id" in obj && obj["id"].JString?
    && "name" in obj && obj["name"].JString? && |obj["name"].str| >= 1
    && "title" in obj && obj["title"].JString? && |obj["title"].str| >= 1
    && ("parentId" in obj ==> obj["parentId"].JString?)
  }

  /** The schema accepts exactly the conforming objects, and reads the record off their fields. */
  lemma ParseAcceptsExactlyConforming(obj: RawObject)
    ensures ParseOrgNode(obj).Success? <==> Conforms(obj)
    ensures Conforms(obj) ==>
      ParseOrgNode(obj).value ==
        OrgNode(obj["id"].str, obj["name"].str, obj["title"].str,
                if "parentId" in obj then Some(obj["parentId"].str) else None)
  {
  }

  /** An empty name or title is refused with the schema's own message. */
  lemma EmptyNameOrTitleRejected(obj: RawObject)
    requires ("name" in obj && obj["name"] == JString("")) || ("title" in obj && obj["title"] == JString(""))
    ensures ParseOrgNode(obj).Failure?
    ensures "name" in obj && obj["name"] == JString("") ==>
      Issue("name", TooSmall(1, NameRequired)) in ParseOrgNode(obj).error
    ensures "title" in obj && obj["title"] == JString("") ==>
      Issue("title", TooSmall(1, TitleRequired)) in ParseOrgNode(obj).error
  {
    var r := ParseOrgNode(obj);
    var id := RequiredString(obj, "id", None);
    var name := RequiredString(obj, "name", Some(NameRequired));
    var title := RequiredString(obj, "title", Some(TitleRequired));
    var parent := OptionalString(obj, "parentId");
    assert r.error == IssuesOf(id) + IssuesOf(name) + IssuesOf(title) + IssuesOf(parent);
    if "name" in obj && obj["name"] == JString("") {
      assert IssuesOf(name)[0] == Issue("name", TooSmall(1, NameRequired));
      assert r.error[|IssuesOf(id)|] == IssuesOf(name)[0];
    }
    if "title" in obj && obj["title"] == JString("") {
      assert IssuesOf(title)[0] == Issue("title", TooSmall(1, TitleRequired));
      assert r.error[|IssuesOf(id)| + |IssuesOf(name)|] == IssuesOf(title)[0];
    }
  }

  /** A record without `parentId` validates; with one, the value must be a string. */
  lemma ParentIdIsOptional(obj: RawObject)
    requires Conforms(obj - {"parentId"})
    ensures "parentId" !in obj ==> ParseOrgNode(obj).Success? && ParseOrgNode(obj).value.parentId == None
    ensures "parentId" in obj ==>
      (ParseOrgNode(obj).Success? <==> obj["parentId"].JString?)
    ensures "parentId" in obj && !obj["parentId"].JString? ==>
      ParseOrgNode(obj).Failure? && ParseOrgNode(obj).error == [Issue("parentId", NotAString)]
  {
    var rest := obj - {"parentId"};
    assert forall k :: k in obj && k != "parentId" ==> k in rest && rest[k] == obj[k];
  }

  /** Encoding a valid record and validating it gives the record back. */
  lemma RoundTrip(n: OrgNode)
    requires ValidOrgNode(n)
    ensures ParseOrgNode(ToObject(n)) == Success(n)
  {
  }

  /** A record the schema accepts carries exactly the four fields of the object; other keys are stripped. */
  lemma ParseKeepsExactlyTheRecordFields(obj: RawObject)
    ensures ParseOrgNode(obj) == ParseOrgNode(map k | k in obj && k in OrgNodeKeys :: obj[k])
    ensures ParseOrgNode(obj).Success? ==>
      ToObject(ParseOrgNode(obj).value) == map k | k in obj && k in OrgNodeKeys :: obj[k]
  {
    var kept := map k | k in obj && k in OrgNodeKeys :: obj[k];
    assert forall k :: k in OrgNodeKeys ==> (k in kept <==> k in obj);
    var r := ParseOrgNode(obj);
    if r.Success? {
      var o := ToObject(r.value);
      assert o.Keys == kept.Keys;
      assert forall k :: k in o ==> o[k] == kept[k];
    }
  }

  /** The insert schema never looks at `id`: removing it leaves the verdict unchanged. */
  lemma InsertSchemaIgnoresId(obj: RawObject)
    ensures ParseInsertOrgNode(obj) == ParseInsertOrgNode(obj - {"id"})
  {
    var rest := obj - {"id"};
    SameFieldsSameVerdict(obj, rest);
  }

  /**
   * The insert schema is the record schema without `id`: for any string id,
   * the record schema accepts the object with that id exactly when the insert
   * schema accepts the object, with the same issues, and the record minus its
   * id is the insert value.
   */
  lemma InsertSchemaOmitsId(obj: RawObject, id: string)
    ensures var full := ParseOrgNode(obj["id" := JString(id)]);
      && (ParseInsertOrgNode(obj).Success? <==> full.Success?)
      && (full.Success? ==> ParseInsertOrgNode(obj).value == OmitId(full.value) && full.value.id == id)
      && (full.Failure? ==> ParseInsertOrgNode(obj).error == full.error)
  {
    var withId := obj["id" := JString(id)];
    SameFieldsSameVerdict(obj, withId);
    assert RequiredString(withId, "id", None) == Success(id);
  }

  /** Two objects agreeing on `name`, `title` and `parentId` get the same insert-schema verdict. */
  lemma SameFieldsSameVerdict(a: RawObject, b: RawObject)
    requires forall k :: k in OrgNodeKeys && k != "id" ==> (k in a <==> k in b) && (k in a ==> a[k] == b[k])
    ensures ParseInsertOrgNode(a) == ParseInsertOrgNode(b)
    ensures RequiredString(a, "name", Some(NameRequired)) == RequiredString(b, "name", Some(NameRequired))
    ensures RequiredString(a, "title", Some(TitleRequired)) == RequiredString(b, "title", Some(TitleRequired))
    ensures OptionalString(a, "parentId") == OptionalString(b, "parentId")
  {
    assert "name" in OrgNodeKeys && "title" in OrgNodeKeys && "parentId" in OrgNodeKeys;
  }
}
