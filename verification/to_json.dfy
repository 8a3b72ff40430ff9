/** The `toJSON` schema plugin: the transform that turns a document's plain
    object into its JSON form, removing the private paths, exposing `_id` as
    `id`, dropping the bookkeeping fields, and then handing the result to a
    transform the schema already had. */
module ToJson {
  import opened Outcomes
  import opened Strings

  /** A JSON-like value as it sits in a document's plain object. ObjectIds and
      dates are objects in JavaScript; arrays are not represented. */
  datatype Json =
    | Null
    | Bool(b: bool)
    | Num(n: int)
    | Str(s: string)
    | Oid(oid: nat)
    | Date(ms: int)
    | Obj(fields: map<string, Json>)

  type Doc = map<string, Json>

  /** JavaScript truthiness; every object is truthy. */
  predicate Truthy(v: Json)
  {
    match v
    case Null => false
    case Bool(b) => b
    case Num(n) => n != 0
    case Str(s) => s != ""
    case _ => true
  }

  /** `obj[a][b]...` along a path, where only nested plain objects are entered. */
  function Get(obj: Doc, path: seq<string>): Option<Json>
    requires |path| >= 1
    decreases |path|
  {
    if path[0] !in obj then None
    else if |path| == 1 then Some(obj[path[0]])
    else if obj[path[0]].Obj? then Get(obj[path[0]].fields, path[1..])
    else None
  }

  /** Whether every proper prefix of `path` leads to a nested plain object. */
  predicate Reaches(obj: Doc, path: seq<string>)
    requires |path| >= 1
    decreases |path|
  {
    |path| == 1 || (path[0] in obj && obj[path[0]].Obj? && Reaches(obj[path[0]].fields, path[1..]))
  }

  /** `deleteAtPath(obj, path, index)`, written on the suffix `path[index..]`:
      the last segment is deleted from the object the others lead to; a missing
      or non-object intermediate stops the descent. ObjectIds and dates are not
      descended into. */
  function DeleteAt(obj: Doc, path: seq<string>): (r: Doc)
    requires |path| >= 1
    ensures r.Keys <= obj.Keys
    ensures forall k :: k in obj && k != path[0] ==> k in r && r[k] == obj[k]
    ensures |path| == 1 ==> r == obj - {path[0]}
    decreases |path|
  {
    if |path| == 1 then obj - {path[0]}
    else if path[0] in obj && Truthy(obj[path[0]]) && obj[path[0]].Obj? then
      obj[path[0] := Obj(DeleteAt(obj[path[0]].fields, path[1..]))]
    else obj
  }

  /** After the deletion nothing is left at the path. */
  lemma {:induction false} DeleteAtRemoves(obj: Doc, path: seq<string>)
    requires |path| >= 1
    ensures Get(DeleteAt(obj, path), path).None?
    decreases |path|
  {
    if |path| > 1 && path[0] in obj && obj[path[0]].Obj? {
      DeleteAtRemoves(obj[path[0]].fields, path[1..]);
    }
  }

  /** A missing or non-object intermediate makes the deletion a no-op. */
  lemma {:induction false} DeleteAtUnreachable(obj: Doc, path: seq<string>)
    requires |path| >= 1
    requires !Reaches(obj, path)
    ensures DeleteAt(obj, path) == obj
    decreases |path|
  {
    if path[0] in obj && obj[path[0]].Obj? {
      var f := obj[path[0]].fields;
      DeleteAtUnreachable(f, path[1..]);
      assert obj[path[0] := Obj(f)] == obj;
    }
  }

  /** Deleting never makes a path appear. */
  lemma {:induction false} DeleteAtNeverAdds(obj: Doc, path: seq<string>, q: seq<string>)
    requires |path| >= 1 && |q| >= 1
    requires Get(obj, q).None?
    ensures Get(DeleteAt(obj, path), q).None?
    decreases |path|
  {
    if |path| > 1 && path[0] in obj && obj[path[0]].Obj? && q[0] == path[0] && |q| > 1 {
      DeleteAtNeverAdds(obj[path[0]].fields, path[1..], q[1..]);
    }
  }

  /** The loop over the schema's paths: each path marked private is split on
      `.` and deleted, in order. */
  function DeletePrivate(ret: Doc, paths: seq<string>): (r: Doc)
    ensures r.Keys <= ret.Keys
    decreases |paths|
  {
    if |paths| == 0 then ret
    else DeletePrivate(DeleteAt(ret, Split(paths[0], '.')), paths[1..])
  }

  /** A top-level key that no private path starts with keeps its value. */
  lemma {:induction false} DeletePrivateKeepsOthers(ret: Doc, paths: seq<string>, k: string)
    requires k in ret
    requires forall i :: 0 <= i < |paths| ==> Split(paths[i], '.')[0] != k
    ensures k in DeletePrivate(ret, paths) && DeletePrivate(ret, paths)[k] == ret[k]
    decreases |paths|
  {
    if |paths| > 0 {
      var first := DeleteAt(ret, Split(paths[0], '.'));
      assert forall i :: 0 <= i < |paths[1..]| ==> Split(paths[1..][i], '.')[0] != k by {
        forall i | 0 <= i < |paths[1..]|
          ensures Split(paths[1..][i], '.')[0] != k
        {
          assert paths[1..][i] == paths[i + 1];
        }
      }
      DeletePrivateKeepsOthers(first, paths[1..], k);
    }
  }

  /** Deleting more private paths never makes one reappear. */
  lemma {:induction false} DeletePrivateNeverAdds(ret: Doc, paths: seq<string>, q: seq<string>)
    requires |q| >= 1
    requires Get(ret, q).None?
    ensures Get(DeletePrivate(ret, paths), q).None?
    decreases |paths|
  {
    if |paths| > 0 {
      DeleteAtNeverAdds(ret, Split(paths[0], '.'), q);
      DeletePrivateNeverAdds(DeleteAt(ret, Split(paths[0], '.')), paths[1..], q);
    }
  }

  /** No private path survives the loop. */
  lemma {:induction false} PrivatePathsGone(ret: Doc, paths: seq<string>, i: nat)
    requires i < |paths|
    ensures Get(DeletePrivate(ret, paths), Split(paths[i], '.')).None?
    decreases |paths|
  {
    var first := DeleteAt(ret, Split(paths[0], '.'));
    if i == 0 {
      DeleteAtRemoves(ret, Split(paths[0], '.'));
      DeletePrivateNeverAdds(first, paths[1..], Split(paths[0], '.'));
    } else {
      PrivatePathsGone(first, paths[1..], i - 1);
      assert paths[1..][i - 1] == paths[i];
    }
  }

  /** Whether the transform sets `id`: the option list does not name it. */
  predicate KeepsId(remove: Option<seq<string>>)
  {
    remove.None? || "id" !in remove.value
  }

  /** Whether a key survives the fixed deletions and the option list, given its value. */
  predicate Survives(k: string, v: Json, remove: Option<seq<string>>)
  {
    && k != "_id" && k != "__v"
    && !((k == "createdAt" || k == "updatedAt") && Truthy(v))
    && (remove.None? || k !in remove.value)
  }

  /** `ret.id = ret._id.toString()` unless the option list names `id`. `show` is
      `toString`; reading it when `_id` is missing or null throws, which is `None` here. */
  function SetId(r1: Doc, remove: Option<seq<string>>, show: Json -> string): (r: Option<Doc>)
    ensures r.None? <==> KeepsId(remove) && ("_id" !in r1 || r1["_id"].Null?)
    ensures r.Some? && KeepsId(remove) ==> r.value == r1["id" := Str(show(r1["_id"]))]
    ensures r.Some? && !KeepsId(remove) ==> r.value == r1
  {
    if !KeepsId(remove) then Some(r1)
    else if "_id" !in r1 || r1["_id"].Null? then None
    else Some(r1["id" := Str(show(r1["_id"]))])
  }

  /** The fixed deletions and the option list: `_id`, `__v`, a truthy
      `createdAt` or `updatedAt`, and every listed key. */
  function DropFields(d: Doc, remove: Option<seq<string>>): (r: Doc)
    ensures r.Keys <= d.Keys
    ensures forall k :: k in d ==> (k in r <==> Survives(k, d[k], remove))
    ensures forall k :: k in r ==> r[k] == d[k]
  {
    map k | k in d && Survives(k, d[k], remove) :: d[k]
  }

  /** The redaction proper: private paths, then `id`, then the deletions. */
  function Redact(ret: Doc, privatePaths: seq<string>, remove: Option<seq<string>>, show: Json -> string)
    : (r: Option<Doc>)
    ensures var r1 := DeletePrivate(ret, privatePaths);
      r.None? <==> KeepsId(remove) && ("_id" !in r1 || r1["_id"].Null?)
    ensures r.Some? ==> "_id" !in r.value && "__v" !in r.value
    ensures r.Some? ==> forall k :: remove.Some? && k in remove.value ==> k !in r.value
    ensures r.Some? ==> ("id" in r.value <==> KeepsId(remove))
    ensures r.Some? && KeepsId(remove) ==>
      r.value["id"] == Str(show(DeletePrivate(ret, privatePaths)["_id"]))
    ensures r.Some? ==> forall k :: k in r.value && (k == "createdAt" || k == "updatedAt") ==> !Truthy(r.value[k])
    ensures r.Some? ==> var r1 := DeletePrivate(ret, privatePaths);
      forall k :: k in r.value && k != "id" ==> k in r1 && r.value[k] == r1[k]
    ensures r.Some? ==> var r1 := DeletePrivate(ret, privatePaths);
      forall k :: k in r1 && k != "id" && Survives(k, r1[k], remove) ==> k in r.value && r.value[k] == r1[k]
  {
    var r1 := DeletePrivate(ret, privatePaths);
    var r2 := SetId(r1, remove, show);
    if r2.None? then None
    else Some(DropFields(r2.value, remove))
  }

  /** With no private schema path and `id` in the option list, redaction is
      just the deletions. */
  lemma RedactWithoutId(d: Doc, remove: Option<seq<string>>, show: Json -> string)
    requires !KeepsId(remove)
    ensures Redact(d, [], remove, show) == Some(DropFields(d, remove))
  {
    assert DeletePrivate(d, []) == d;
  }

  /** The deletions keep exactly the keys the caller names. */
  lemma DropFieldsExactly(d: Doc, remove: Option<seq<string>>, want: Doc)
    requires forall k :: k in want ==> k in d && d[k] == want[k]
    requires forall k :: k in d ==> (Survives(k, d[k], remove) <==> k in want)
    ensures DropFields(d, remove) == want
  {
  }

  /** The installed `transform`: redaction, then the schema's earlier transform if it had one. */
  function Transform(ret: Doc, privatePaths: seq<string>, remove: Option<seq<string>>, show: Json -> string,
                     prior: Option<Doc -> Doc>): (r: Option<Doc>)
    ensures Redact(ret, privatePaths, remove, show).None? ==> r.None?
    ensures prior.None? ==> r == Redact(ret, privatePaths, remove, show)
    ensures prior.Some? && Redact(ret, privatePaths, remove, show).Some? ==>
      r == Some(prior.value(Redact(ret, privatePaths, remove, show).value))
  {
    var red := Redact(ret, privatePaths, remove, show);
    if red.None? then None
    else if prior.None? then red
    else Some(prior.value(red.value))
  }
}
