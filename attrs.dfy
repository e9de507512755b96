/**
  The attribute document of a resource: Go's `Attributes map[string]interface{}`
  (pkg/resource/resource.go), modelled as a tree of tagged values.

  Go maps are references, and the methods of `*Attributes` rebind the receiver
  (`*a = m`) while they walk down a path.  The class `Attributes` below therefore
  keeps the outermost document it has walked down from (`root`) and the keys it
  has descended through (`cursor`): the receiver denotes the sub-document of
  `root` at `cursor`, and a write to it is a write into `root` at that place.
*/
module Attrs {
  import opened Common

  /** A dynamically typed value of a JSON-shaped document.  `named` tells a map whose
      dynamic type is the named type `Attributes` from a plain `map[string]interface{}`. */
  datatype Value =
    | Null
    | Bool(b: bool)
    | Num(n: real)
    | Str(s: string)
    | Seq(items: seq<Value>)
    | Map(entries: map<string, Value>, named: bool)

  type Doc = map<string, Value>

  /** The Go type assertion `v.(Attributes)` succeeds. */
  predicate IsAttributes(v: Value) {
    v.Map? && v.named
  }

  predicate IsScalar(v: Value) {
    v.Bool? || v.Num? || v.Str?
  }

  /** `val == reflect.Zero(reflect.TypeOf(val)).Interface()` for a scalar value. */
  predicate IsZero(v: Value) {
    v == Bool(false) || v == Num(0.0) || v == Str("")
  }

  // ---------------------------------------------------------------------------
  // Navigating a document through `Attributes` values

  /** The sub-document reached from `d` by following `p` through values whose
      dynamic type is `Attributes`, the only ones the walkers descend into. */
  function At(d: Doc, p: seq<string>): Option<Doc>
    decreases |p|
  {
    if p == [] then Some(d)
    else if p[0] in d && IsAttributes(d[p[0]]) then At(d[p[0]].entries, p[1..])
    else None
  }

  /** `d` with its sub-document at `p` replaced by `sub`: what a write through a
      map reference obtained by walking `p` does to the enclosing document. */
  function Replace(d: Doc, p: seq<string>, sub: Doc): (r: Doc)
    requires At(d, p).Some?
    ensures At(r, p) == Some(sub)
    ensures p != [] ==> r.Keys == d.Keys && IsAttributes(r[p[0]])
    ensures p != [] ==> forall k :: k in d && k != p[0] ==> r[k] == d[k]
    decreases |p|
  {
    if p == [] then sub
    else d[p[0] := Map(Replace(d[p[0]].entries, p[1..], sub), true)]
  }

  /** Writing back what is already there changes nothing. */
  lemma {:induction false} ReplaceSame(d: Doc, p: seq<string>)
    requires At(d, p).Some?
    ensures Replace(d, p, At(d, p).value) == d
    decreases |p|
  {
    if p != [] {
      ReplaceSame(d[p[0]].entries, p[1..]);
    }
  }

  /** Walking `p + q` is walking `p`, then `q`. */
  lemma {:induction false} AtAppend(d: Doc, p: seq<string>, q: seq<string>)
    ensures At(d, p + q) == if At(d, p).Some? then At(At(d, p).value, q) else None
    decreases |p|
  {
    if p != [] {
      assert p + q != [];
      assert (p + q)[0] == p[0];
      assert (p + q)[1..] == p[1..] + q;
      if p[0] in d && IsAttributes(d[p[0]]) {
        AtAppend(d[p[0]].entries, p[1..], q);
      }
    } else {
      assert p + q == q;
    }
  }

  /** One more step of descent, as the loops of SafeSet and SafeDelete take it. */
  lemma AtStep(d: Doc, p: seq<string>, key: string)
    requires At(d, p).Some? && key in At(d, p).value && IsAttributes(At(d, p).value[key])
    ensures At(d, p + [key]) == Some(At(d, p).value[key].entries)
  {
    AtAppend(d, p, [key]);
  }

  /** Writing a child of the current map equals writing the current map with that child updated. */
  lemma {:induction false} ReplaceStep(d: Doc, p: seq<string>, key: string, e: Doc)
    requires At(d, p).Some? && key in At(d, p).value && IsAttributes(At(d, p).value[key])
    ensures At(d, p + [key]) == Some(At(d, p).value[key].entries)
    ensures Replace(d, p + [key], e) == Replace(d, p, At(d, p).value[key := Map(e, true)])
    decreases |p|
  {
    AtStep(d, p, key);
    if p != [] {
      assert (p + [key])[0] == p[0];
      assert (p + [key])[1..] == p[1..] + [key];
      ReplaceStep(d[p[0]].entries, p[1..], key, e);
    }
  }

  // ---------------------------------------------------------------------------
  // SafeSet and SafeDelete, relative to the map the receiver denotes

  /** The errors SafeSet returns. */
  datatype AttrError =
    | SetFailed
    | NotNestedStruct(path: seq<string>, key: string)

  /** The text of the error, as `errors.New` / `errors.Errorf` build it. */
  function Message(e: AttrError): string {
    match e
    case SetFailed => "Error setting value"
    case NotNestedStruct(path, key) =>
      "Path " + Join(path, ".") + " cannot be set: " + key + " is not a nested struct"
  }

  /** SafeSet's loop from segment `i` on, started at map `d`: the new contents of `d`,
      the keys the receiver descends through, and the error returned. */
  function SetIn(d: Doc, path: seq<string>, i: nat, value: Value): (r: (Doc, seq<string>, Option<AttrError>))
    requires i <= |path|
    decreases |path| - i
  {
    if i == |path| then (d, [], Some(SetFailed))
    else
      var key := path[i];
      if i == |path| - 1 then (d[key := value], [], None)
      else if key !in d then (d[key := Map(map[], false)], [], Some(NotNestedStruct(path, key)))
      else if IsAttributes(d[key]) then
        var sub := SetIn(d[key].entries, path, i + 1, value);
        (d[key := Map(sub.0, true)], [key] + sub.1, sub.2)
      else (d, [], Some(NotNestedStruct(path, key)))
  }

  /** Where SafeSet's walk stops: at segment j, having descended through `path[i..j]`;
      the empty path stays put and changes nothing. */
  lemma {:induction false} SetInWalkPath(d: Doc, path: seq<string>, i: nat, value: Value)
    requires i <= |path|
    ensures var r := SetIn(d, path, i, value);
            var j := i + |r.1|;
            && j <= |path| && r.1 == path[i..j]
            && (i < |path| ==> j < |path|)
            && (i == |path| ==> r.0 == d && r.1 == [])
    decreases |path| - i
  {
    if i < |path| - 1 && path[i] in d && IsAttributes(d[path[i]]) {
      var key := path[i];
      var e := d[key].entries;
      SetInWalkPath(e, path, i + 1, value);
      var sub := SetIn(e, path, i + 1, value);
      assert [key] + sub.1 == path[i..i + 1 + |sub.1|];
    }
  }

  /** The keys the walk descends through name nested `Attributes` values. */
  lemma {:induction false} SetInWalkReaches(d: Doc, path: seq<string>, i: nat, value: Value)
    requires i <= |path|
    ensures At(d, SetIn(d, path, i, value).1).Some?
    decreases |path| - i
  {
    if i < |path| - 1 && path[i] in d && IsAttributes(d[path[i]]) {
      var key := path[i];
      var e := d[key].entries;
      SetInWalkReaches(e, path, i + 1, value);
      var sub := SetIn(e, path, i + 1, value);
      var q := [key] + sub.1;
      assert q[0] == key && q[1..] == sub.1;
    }
  }

  /** The walk succeeds iff it stops at the last segment, and fails with SetFailed iff the
      path is empty. */
  lemma {:induction false} SetInWalk(d: Doc, path: seq<string>, i: nat, value: Value)
    requires i <= |path|
    ensures var r := SetIn(d, path, i, value);
            var j := i + |r.1|;
            && j <= |path| && r.1 == path[i..j] && At(d, r.1).Some?
            && (i < |path| ==> j < |path|)
            && (r.2 == None <==> i < |path| && j == |path| - 1)
            && (r.2 == Some(SetFailed) <==> i == |path|)
            && (i == |path| ==> r.0 == d && r.1 == [])
    decreases |path| - i
  {
    SetInWalkPath(d, path, i, value);
    SetInWalkReaches(d, path, i, value);
    if i < |path| - 1 && path[i] in d && IsAttributes(d[path[i]]) {
      SetInWalk(d[path[i]].entries, path, i + 1, value);
    }
  }

  /** On success only the last segment's entry of the map reached changed, to `value`. */
  lemma {:induction false} SetInSuccess(d: Doc, path: seq<string>, i: nat, value: Value)
    requires i <= |path| && SetIn(d, path, i, value).2 == None
    ensures At(d, SetIn(d, path, i, value).1).Some?
    ensures var r := SetIn(d, path, i, value);
            r.0 == Replace(d, r.1, At(d, r.1).value[path[|path| - 1] := value])
    decreases |path| - i
  {
    SetInWalk(d, path, i, value);
    if i < |path| - 1 {
      var key := path[i];
      var e := d[key].entries;
      SetInWalk(e, path, i + 1, value);
      SetInSuccess(e, path, i + 1, value);
      var sub := SetIn(e, path, i + 1, value);
      var q := [key] + sub.1;
      assert q[0] == key && q[1..] == sub.1;
    }
  }

  /** On a "not a nested struct" failure at segment j, `path[j]` is not an `Attributes`
      value of the map reached, and the only change is the empty plain map inserted
      there when `path[j]` was missing. */
  lemma {:induction false} SetInFailure(d: Doc, path: seq<string>, i: nat, value: Value)
    requires i < |path| && SetIn(d, path, i, value).2.Some?
    ensures var r := SetIn(d, path, i, value);
            i + |r.1| < |path| - 1 && At(d, r.1).Some?
    ensures var r := SetIn(d, path, i, value);
            var j := i + |r.1|;
            var cur := At(d, r.1).value;
            && r.2 == Some(NotNestedStruct(path, path[j]))
            && !(path[j] in cur && IsAttributes(cur[path[j]]))
            && r.0 == Replace(d, r.1, if path[j] in cur then cur else cur[path[j] := Map(map[], false)])
    decreases |path| - i
  {
    SetInWalk(d, path, i, value);
    if path[i] in d && IsAttributes(d[path[i]]) {
      var key := path[i];
      var e := d[key].entries;
      SetInWalk(e, path, i + 1, value);
      SetInFailure(e, path, i + 1, value);
      var sub := SetIn(e, path, i + 1, value);
      var q := [key] + sub.1;
      assert q[0] == key && q[1..] == sub.1;
    }
  }

  /** One step of SafeSet's descent from the current map `cur` into the `Attributes` value at
      `path[i]`: the rest of the walk below it, written back, is the walk from `cur`. */
  lemma SetInDescend(root: Doc, cursor: seq<string>, cur: Doc, path: seq<string>, i: nat, value: Value)
    requires At(root, cursor) == Some(cur) && i < |path| - 1
    requires path[i] in cur && IsAttributes(cur[path[i]])
    ensures At(root, cursor + [path[i]]) == Some(cur[path[i]].entries)
    ensures var r := SetIn(cur, path, i, value);
            var sub := SetIn(cur[path[i]].entries, path, i + 1, value);
            && Replace(root, cursor + [path[i]], sub.0) == Replace(root, cursor, r.0)
            && (cursor + [path[i]]) + sub.1 == cursor + r.1
            && sub.2 == r.2
  {
    var key := path[i];
    var sub := SetIn(cur[key].entries, path, i + 1, value);
    ReplaceStep(root, cursor, key, sub.0);
    assert (cursor + [key]) + sub.1 == cursor + ([key] + sub.1);
  }

  /** SafeSet succeeds exactly when the path is non-empty and every segment before
      the last already names an `Attributes` value. */
  lemma SetSucceedsIff(d: Doc, path: seq<string>, value: Value)
    ensures SetIn(d, path, 0, value).2 == None <==> |path| > 0 && At(d, path[..|path| - 1]).Some?
  {
    SetInWalk(d, path, 0, value);
    var r := SetIn(d, path, 0, value);
    if r.2.Some? && |path| > 0 {
      SetInFailure(d, path, 0, value);
      var j := |r.1|;
      assert j < |path| - 1;
      AtAppend(d, r.1, [path[j]]);
      assert At(d, r.1 + [path[j]]) == None;
      assert path[..|path| - 1] == (r.1 + [path[j]]) + path[j + 1..|path| - 1];
      AtAppend(d, r.1 + [path[j]], path[j + 1..|path| - 1]);
    }
  }

  /** As written, SafeSet cannot go through a segment that is missing: it inserts an
      empty plain map there (which is not an `Attributes` value) and then fails. */
  lemma SetCannotCreateIntermediate(d: Doc, path: seq<string>, value: Value)
    requires |path| >= 2 && path[0] !in d
    ensures SetIn(d, path, 0, value)
         == (d[path[0] := Map(map[], false)], [], Some(NotNestedStruct(path, path[0])))
  {
  }

  /** A concrete instance: setting `a.b` on an empty document. */
  lemma SetNestedOnEmptyFails()
    ensures SetIn(map[], ["a", "b"], 0, Str("x"))
         == (map["a" := Map(map[], false)], [], Some(NotNestedStruct(["a", "b"], "a")))
  {
    SetCannotCreateIntermediate(map[], ["a", "b"], Str("x"));
  }

  /** SafeDelete's loop from segment `i` on, started at map `d`: the new contents of `d`
      and the keys the receiver descends through. */
  function DeleteIn(d: Doc, path: seq<string>, i: nat): (r: (Doc, seq<string>))
    requires i <= |path|
    decreases |path| - i
  {
    if i == |path| then (d, [])
    else
      var key := path[i];
      if i == |path| - 1 then (d - {key}, [])
      else if key in d && IsAttributes(d[key]) then
        var sub := DeleteIn(d[key].entries, path, i + 1);
        (d[key := Map(sub.0, true)], [key] + sub.1)
      else (d, [])
  }

  /** What SafeDelete does.  The walk stops at segment j, having descended through
      `path[i..j]` to the map `cur`.  When j is the last segment exactly the key `path[j]`
      is removed from `cur`; otherwise nothing changes, and either the path was empty or
      `path[j]` is not an `Attributes` value of `cur`. */
  lemma {:induction false} DeleteInEffect(d: Doc, path: seq<string>, i: nat)
    requires i <= |path|
    ensures var r := DeleteIn(d, path, i);
            var j := i + |r.1|;
            && j <= |path| && r.1 == path[i..j] && At(d, r.1).Some?
            && (i < |path| ==> j < |path|)
            && (i < |path| && j == |path| - 1 ==> r.0 == Replace(d, r.1, At(d, r.1).value - {path[j]}))
            && (!(i < |path| && j == |path| - 1) ==> r.0 == d)
            && (i < |path| && j < |path| - 1 ==>
                  var cur := At(d, r.1).value;
                  !(path[j] in cur && IsAttributes(cur[path[j]])))
    decreases |path| - i
  {
    DeleteInWalkPath(d, path, i);
    DeleteInWalkReaches(d, path, i);
    if i < |path| - 1 && path[i] in d && IsAttributes(d[path[i]]) {
      DeleteInEffect(d[path[i]].entries, path, i + 1);
    }
  }

  /** SafeDelete's walk descends through a prefix `path[i..j]` and stops before the end. */
  lemma {:induction false} DeleteInWalkPath(d: Doc, path: seq<string>, i: nat)
    requires i <= |path|
    ensures var r := DeleteIn(d, path, i);
            var j := i + |r.1|;
            && j <= |path| && r.1 == path[i..j]
            && (i < |path| ==> j < |path|)
    decreases |path| - i
  {
    if i < |path| - 1 && path[i] in d && IsAttributes(d[path[i]]) {
      var key := path[i];
      DeleteInWalkPath(d[key].entries, path, i + 1);
      var sub := DeleteIn(d[key].entries, path, i + 1);
      assert [key] + sub.1 == path[i..i + 1 + |sub.1|];
    }
  }

  /** The keys SafeDelete's walk descends through name nested `Attributes` values. */
  lemma {:induction false} DeleteInWalkReaches(d: Doc, path: seq<string>, i: nat)
    requires i <= |path|
    ensures At(d, DeleteIn(d, path, i).1).Some?
    decreases |path| - i
  {
    if i < |path| - 1 && path[i] in d && IsAttributes(d[path[i]]) {
      var key := path[i];
      DeleteInWalkReaches(d[key].entries, path, i + 1);
      var q := [key] + DeleteIn(d[key].entries, path, i + 1).1;
      assert q[0] == key && q[1..] == DeleteIn(d[key].entries, path, i + 1).1;
    }
  }

  /** SafeDelete changes the document exactly when every segment before the last names an
      `Attributes` value and the map so reached holds the last segment as a key. */
  lemma DeleteChangesIff(d: Doc, path: seq<string>)
    ensures DeleteIn(d, path, 0).0 != d <==>
              |path| > 0 && At(d, path[..|path| - 1]).Some? && path[|path| - 1] in At(d, path[..|path| - 1]).value
  {
    DeleteInEffect(d, path, 0);
    var r := DeleteIn(d, path, 0);
    if |path| > 0 {
      var pre := path[..|path| - 1];
      if |r.1| == |path| - 1 {
        assert r.1 == pre;
        var cur := At(d, pre).value;
        if path[|path| - 1] in cur {
          assert At(r.0, pre) == Some(cur - {path[|path| - 1]});
        } else {
          assert cur - {path[|path| - 1]} == cur;
          ReplaceSame(d, pre);
        }
      } else {
        var j := |r.1|;
        AtAppend(d, r.1, [path[j]]);
        assert pre == (r.1 + [path[j]]) + path[j + 1..|path| - 1];
        AtAppend(d, r.1 + [path[j]], path[j + 1..|path| - 1]);
      }
    }
  }

  // ---------------------------------------------------------------------------
  // Setting a path as evidently intended

  /** The value at `p`, descending through any map, named or plain. */
  function Lookup(d: Doc, p: seq<string>): Option<Value>
    decreases |p|
  {
    if p == [] || p[0] !in d then None
    else if |p| == 1 then Some(d[p[0]])
    else if d[p[0]].Map? then Lookup(d[p[0]].entries, p[1..])
    else None
  }

  /** No segment before the last names a value that is present but not a map. */
  predicate Settable(d: Doc, p: seq<string>)
    decreases |p|
  {
    |p| > 0 &&
    (|p| == 1 || p[0] !in d || (d[p[0]].Map? && Settable(d[p[0]].entries, p[1..])))
  }

  /** SafeSet as its callers need it: missing intermediates are created as plain maps and
      walked into, any map (named or plain) is descended into, and the caller keeps the
      whole document rather than having the receiver rebound. */
  function SetPath(d: Doc, path: seq<string>, i: nat, value: Value): (r: Result<Doc, AttrError>)
    requires i <= |path|
    ensures r.Success? <==> Settable(d, path[i..])
    ensures r.Success? ==> Lookup(r.value, path[i..]) == Some(value)
    ensures r.Success? && i < |path| ==> r.value.Keys == d.Keys + {path[i]}
    ensures r.Success? && i < |path| ==> forall k :: k in d && k != path[i] ==> r.value[k] == d[k]
    decreases |path| - i
  {
    if i == |path| then Failure(SetFailed)
    else
      var key := path[i];
      if i == |path| - 1 then Success(d[key := value])
      else
        var child := if key in d then d[key] else Map(map[], false);
        if !child.Map? then Failure(NotNestedStruct(path, key))
        else match SetPath(child.entries, path, i + 1, value)
          case Failure(e) => Failure(e)
          case Success(e) => Success(d[key := Map(e, child.named)])
  }

  /** Neither path is a prefix of the other: they part ways at some segment. */
  predicate Diverges(q: seq<string>, p: seq<string>)
    decreases |q|
  {
    |q| > 0 && |p| > 0 && (q[0] != p[0] || Diverges(q[1..], p[1..]))
  }

  /** The corrected set changes nothing off its path: every path that parts ways with
      `path[i..]` looks up the same value before and after, at any depth. */
  lemma {:induction false} SetPathFrame(d: Doc, path: seq<string>, i: nat, value: Value, q: seq<string>)
    requires i <= |path| && SetPath(d, path, i, value).Success?
    requires Diverges(q, path[i..])
    ensures Lookup(SetPath(d, path, i, value).value, q) == Lookup(d, q)
    decreases |path| - i
  {
    var key := path[i];
    if q[0] != key {
    } else if i < |path| - 1 {
      assert path[i..][1..] == path[i + 1..];
      var child := if key in d then d[key] else Map(map[], false);
      SetPathFrame(child.entries, path, i + 1, value, q[1..]);
    }
  }

  /** Unlike SafeSet, the corrected set reaches through a missing intermediate. */
  lemma SetPathCreatesIntermediate()
    ensures SetPath(map[], ["a", "b"], 0, Str("x")) == Success(map["a" := Map(map["b" := Str("x")], false)])
  {
    assert Settable(map["a" := Map(map[], false)]["a"].entries, ["b"]);
  }

  // ---------------------------------------------------------------------------
  // Dotted paths

  /** The dotted path of `next` below `path`; the empty path is the document itself. */
  function ConcatenatePath(path: string, next: string): (r: string)
    ensures path == "" ==> r == next
    ensures path != "" ==>
      && |r| == |path| + 1 + |next|
      && r[..|path|] == path && r[|path|] == '.' && r[|path| + 1..] == next
  {
    if path == "" then next else path + "." + next
  }

  /** The path reached from `path` by descending through `segs` one at a time. */
  function PathOf(path: string, segs: seq<string>): string
    decreases |segs|
  {
    if segs == [] then path else PathOf(ConcatenatePath(path, segs[0]), segs[1..])
  }

  /** Below a non-empty path, descending through segments appends them dot-separated. */
  lemma {:induction false} PathOfAppends(path: string, segs: seq<string>)
    requires path != "" && |segs| > 0
    ensures PathOf(path, segs) == path + "." + Join(segs, ".")
    decreases |segs|
  {
    var next := path + "." + segs[0];
    assert PathOf(path, segs) == PathOf(next, segs[1..]);
    if |segs| > 1 {
      var rest := Join(segs[1..], ".");
      PathOfAppends(next, segs[1..]);
      assert Join(segs, ".") == segs[0] + "." + rest;
      assert next + "." + rest == path + "." + (segs[0] + "." + rest);
    }
  }

  /** From the document itself, the path of a key sequence whose first key is not empty is
      the keys joined with dots. */
  lemma PathOfIsJoin(segs: seq<string>)
    requires |segs| > 0 && segs[0] != ""
    ensures PathOf("", segs) == Join(segs, ".")
  {
    if |segs| > 1 {
      PathOfAppends(segs[0], segs[1..]);
      assert Join(segs, ".") == segs[0] + "." + Join(segs[1..], ".");
    }
  }

  // ---------------------------------------------------------------------------
  // SanitizeDefaults

  /** The dynamic values sanitize's interface case does not copy: nil, and an empty slice or map. */
  predicate Droppable(v: Value) {
    v == Null || v == Seq([]) || (v.Map? && v.entries == map[])
  }

  /** sanitize on a value stored in an interface: slices keep their length, with nil and empty
      elements turned into nil; maps keep their dynamic type and drop droppable entries; scalars,
      zero ones included, are copied. Emptiness is checked before recursing. */
  function SanitizeValue(v: Value): (r: Value)
    ensures r.Seq? <==> v.Seq?
    ensures r.Map? <==> v.Map?
    ensures v.Seq? ==> |r.items| == |v.items|
    ensures v.Seq? ==> forall i :: 0 <= i < |v.items| ==>
      r.items[i] == if Droppable(v.items[i]) then Null else SanitizeValue(v.items[i])
    ensures v.Map? ==> r.named == v.named
    ensures v.Map? ==> r.entries.Keys == set k | k in v.entries && !Droppable(v.entries[k])
    ensures v.Map? ==> forall k :: k in r.entries ==> r.entries[k] == SanitizeValue(v.entries[k])
    ensures !v.Seq? && !v.Map? ==> r == v
    decreases v
  {
    match v
    case Seq(items) =>
      Seq(seq(|items|, i requires 0 <= i < |items| =>
        if Droppable(items[i]) then Null else SanitizeValue(items[i])))
    case Map(m, named) =>
      Map(map k | k in m && !Droppable(m[k]) :: SanitizeValue(m[k]), named)
    case _ => v
  }

  /** The document SanitizeDefaults leaves behind. */
  function SanitizeDoc(d: Doc): (r: Doc)
    ensures r.Keys == set k | k in d && !Droppable(d[k])
    ensures forall k :: k in r ==> r[k] == SanitizeValue(d[k])
    ensures forall k :: k in d && IsScalar(d[k]) ==> k in r && r[k] == d[k]
  {
    SanitizeValue(Map(d, true)).entries
  }

  /** A value one pass of sanitize leaves unchanged: no map holds a droppable entry, no slice
      holds an empty slice or map, at any depth. */
  predicate Clean(v: Value)
    decreases v
  {
    match v
    case Seq(items) =>
      forall i :: 0 <= i < |items| ==> (items[i] == Null || !Droppable(items[i])) && Clean(items[i])
    case Map(m, _) =>
      forall k :: k in m ==> !Droppable(m[k]) && Clean(m[k])
    case _ => true
  }

  /** What one pass guarantees at every depth: no map entry is nil or an empty slice, and
      no slice element is an empty slice. (Maps can still be left empty.) */
  predicate NoNilOrEmptySlice(v: Value)
    decreases v
  {
    match v
    case Seq(items) =>
      forall i :: 0 <= i < |items| ==> items[i] != Seq([]) && NoNilOrEmptySlice(items[i])
    case Map(m, _) =>
      forall k :: k in m ==> m[k] != Null && m[k] != Seq([]) && NoNilOrEmptySlice(m[k])
    case _ => true
  }

  /** The fixed points of sanitize are exactly the clean values. */
  lemma {:induction false} SanitizeFixpointIff(v: Value)
    ensures SanitizeValue(v) == v <==> Clean(v)
    decreases v
  {
    var r := SanitizeValue(v);
    match v
    case Seq(items) =>
      forall i | 0 <= i < |items|
        ensures (r.items[i] == items[i]) <==> (items[i] == Null || !Droppable(items[i])) && Clean(items[i])
      {
        SanitizeFixpointIff(items[i]);
      }
      if Clean(v) {
        assert r.items == items;
      }
      if r == v {
        assert forall i :: 0 <= i < |items| ==> r.items[i] == items[i];
      }
    case Map(m, named) =>
      forall k | k in m && !Droppable(m[k])
        ensures (r.entries[k] == m[k]) <==> Clean(m[k])
      {
        SanitizeFixpointIff(m[k]);
      }
      if Clean(v) {
        assert r.entries.Keys == m.Keys;
        assert r.entries == m;
      }
      if r == v {
        assert forall k :: k in m ==> k in r.entries && r.entries[k] == m[k];
      }
    case _ =>
  }

  /** Every value sanitize produces has no nil map entry and no empty slice below its top. */
  lemma {:induction false} SanitizeRemovesNilAndEmptySlices(v: Value)
    ensures NoNilOrEmptySlice(SanitizeValue(v))
    decreases v
  {
    var r := SanitizeValue(v);
    match v
    case Seq(items) =>
      forall i | 0 <= i < |items|
        ensures r.items[i] != Seq([]) && NoNilOrEmptySlice(r.items[i])
      {
        SanitizeRemovesNilAndEmptySlices(items[i]);
      }
    case Map(m, named) =>
      forall k | k in r.entries
        ensures r.entries[k] != Null && r.entries[k] != Seq([]) && NoNilOrEmptySlice(r.entries[k])
      {
        SanitizeRemovesNilAndEmptySlices(m[k]);
      }
    case _ =>
  }

  /** The first pass over `{a: {b: nil}, n: 0}` empties `a` but keeps it. */
  lemma SanitizeFirstPass()
    ensures SanitizeDoc(map["a" := Map(map["b" := Null], true), "n" := Num(0.0)])
         == map["a" := Map(map[], true), "n" := Num(0.0)]
  {
    var d := map["a" := Map(map["b" := Null], true), "n" := Num(0.0)];
    var inner := SanitizeValue(d["a"]);
    assert "b" in d["a"].entries && Droppable(d["a"].entries["b"]);
    assert inner.entries.Keys == {};
    assert !Droppable(d["a"]) && !Droppable(d["n"]);
    assert SanitizeDoc(d).Keys == {"a", "n"};
  }

  /** The second pass over `{a: {}, n: 0}` drops the empty `a`. */
  lemma SanitizeSecondPass()
    ensures SanitizeDoc(map["a" := Map(map[], true), "n" := Num(0.0)]) == map["n" := Num(0.0)]
  {
    var once := map["a" := Map(map[], true), "n" := Num(0.0)];
    assert Droppable(once["a"]) && !Droppable(once["n"]);
    assert SanitizeDoc(once).Keys == {"n"};
  }

  /** One pass is not idempotent: a map whose entries are all nil is kept, emptied, and
      only removed by a second pass. Zero scalars survive any number of passes. */
  lemma SanitizeNotIdempotent()
    ensures var d := map["a" := Map(map["b" := Null], true), "n" := Num(0.0)];
            && SanitizeDoc(d) == map["a" := Map(map[], true), "n" := Num(0.0)]
            && SanitizeDoc(SanitizeDoc(d)) == map["n" := Num(0.0)]
  {
    SanitizeFirstPass();
    SanitizeSecondPass();
  }

  // ---------------------------------------------------------------------------
  // The receiver

  /** A `*Attributes` receiver: it denotes the sub-document of `root` at `cursor`. */
  class Attributes {
    /** The outermost document the receiver has walked down from. */
    var root: Doc
    /** The keys SafeSet and SafeDelete have rebound the receiver through. */
    var cursor: seq<string>

    ghost predicate Valid()
      reads this
    {
      At(root, cursor).Some?
    }

    /** The map the receiver denotes. */
    function Current(): Doc
      reads this
      requires Valid()
    {
      At(root, cursor).value
    }

    constructor (d: Doc)
      ensures Valid() && root == d && cursor == [] && Current() == d
    {
      root := d;
      cursor := [];
    }

    /** Top-level lookup of the literal key `path`; dots in it are not separators. */
    function Get(path: string): (r: (Value, bool))
      reads this
      requires Valid()
      ensures r.1 <==> path in Current()
      ensures r.1 ==> r.0 == Current()[path]
      ensures !r.1 ==> r.0 == Null
    {
      var cur := Current();
      if path in cur then (cur[path], true) else (Null, false)
    }

    method SafeDelete(path: seq<string>)
      requires Valid()
      modifies this
      ensures Valid()
      ensures var r := DeleteIn(old(Current()), path, 0);
              root == Replace(old(root), old(cursor), r.0) && cursor == old(cursor) + r.1
    {
      ghost var r0 := DeleteIn(Current(), path, 0);
      var i := 0;
      while i < |path|
        invariant i <= |path| && Valid()
        invariant var r := DeleteIn(Current(), path, i);
                  Replace(root, cursor, r.0) == Replace(old(root), old(cursor), r0.0)
                  && cursor + r.1 == old(cursor) + r0.1
      {
        var key := path[i];
        var cur := Current();
        if i == |path| - 1 {
          root := Replace(root, cursor, cur - {key});
          return;
        }
        if key !in cur {
          ReplaceSame(root, cursor);
          return;
        }
        var v := cur[key];
        if !IsAttributes(v) {
          ReplaceSame(root, cursor);
          return;
        }
        ghost var sub := DeleteIn(v.entries, path, i + 1);
        ReplaceStep(root, cursor, key, sub.0);
        cursor := cursor + [key];
        i := i + 1;
      }
      ReplaceSame(root, cursor);
    }

    method SafeSet(path: seq<string>, value: Value) returns (err: Option<AttrError>)
      requires Valid()
      modifies this
      ensures Valid()
      ensures var r := SetIn(old(Current()), path, 0, value);
              root == Replace(old(root), old(cursor), r.0) && cursor == old(cursor) + r.1 && err == r.2
    {
      ghost var r0 := SetIn(Current(), path, 0, value);
      var i := 0;
      while i < |path|
        invariant i <= |path| && Valid()
        invariant var r := SetIn(Current(), path, i, value);
                  Replace(root, cursor, r.0) == Replace(old(root), old(cursor), r0.0)
                  && cursor + r.1 == old(cursor) + r0.1 && r.2 == r0.2
      {
        var key := path[i];
        var cur := Current();
        ghost var r := SetIn(cur, path, i, value);
        if i == |path| - 1 {
          assert r == (cur[key := value], [], None);
          assert cursor + [] == cursor;
          root := Replace(root, cursor, cur[key := value]);
          return None;
        }
        if key !in cur {
          assert r == (cur[key := Map(map[], false)], [], Some(NotNestedStruct(path, key)));
          assert cursor + [] == cursor;
          root := Replace(root, cursor, cur[key := Map(map[], false)]);
          return Some(NotNestedStruct(path, key));
        }
        var v := cur[key];
        if !IsAttributes(v) {
          assert r == (cur, [], Some(NotNestedStruct(path, key)));
          assert cursor + [] == cursor;
          ReplaceSame(root, cursor);
          return Some(NotNestedStruct(path, key));
        }
        SetInDescend(root, cursor, cur, path, i, value);
        cursor := cursor + [key];
        i := i + 1;
      }
      assert cursor + [] == cursor;
      ReplaceSame(root, cursor);
      return Some(SetFailed);
    }

    /** Deletes the top-level entry `path` when it holds its type's zero value. */
    method DeleteIfDefault(path: string)
      requires Valid()
      requires path in Current() ==> IsScalar(Current()[path])
      modifies this
      ensures Valid() && cursor == old(cursor)
      ensures Current() == if path in old(Current()) && IsZero(old(Current())[path])
                           then old(Current()) - {path} else old(Current())
      ensures root == Replace(old(root), cursor, Current())
    {
      var val, exist := Get(path).0, Get(path).1;
      if exist && IsZero(val) {
        SafeDelete([path]);
      } else {
        ReplaceSame(root, cursor);
      }
    }

    /** Replaces the receiver with a freshly built sanitized copy of the map it denotes. */
    method SanitizeDefaults()
      requires Valid()
      modifies this
      ensures Valid() && cursor == [] && root == SanitizeDoc(old(Current()))
    {
      var copy := SanitizeDoc(Current());
      root := copy;
      cursor := [];
    }
  }
}
