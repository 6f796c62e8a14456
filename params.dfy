/**
 * The request encoding of the tracker client (src/phabricator.ts:38-55 and 64-77):
 * `objToParams` flattens a nested request object into form fields with
 * `a[b][c]`-style names, the token is put in front, and the fields are joined into
 * an `application/x-www-form-urlencoded` body. URI encoding is a parameter.
 */
module Phabricator {
  import opened Wrappers

  /** A request value: a primitive, already rendered as text, or an object with its entries in order. */
  datatype Value = Prim(text: string) | Obj(entries: seq<Entry>)
  datatype Entry = Entry(key: string, value: Value)

  /** A flat object as its entries in order; a well-formed one has each key once. */
  type Dict = seq<(string, string)>

  /** The decimal digits of `n`, as `Object.entries` names the positions of an array. */
  function Decimal(n: nat): string {
    if n < 10 then ["0123456789"[n]] else Decimal(n / 10) + ["0123456789"[n % 10]]
  }

  /** An array, whose entries `Object.entries` lists under its positions. */
  function Array(vs: seq<Value>): Value {
    Obj(seq(|vs|, i requires 0 <= i < |vs| => Entry(Decimal(i), vs[i])))
  }

  /** `path ? `${path}[${key}]` : key`. */
  function ChildPath(path: string, key: string): string {
    if path == "" then key else path + "[" + key + "]"
  }

  ghost predicate DistinctKeys(d: Dict) {
    forall i, j :: 0 <= i < j < |d| ==> d[i].0 != d[j].0
  }

  /** The value of the last entry named `k`: the property look-up once every entry is assigned in order. */
  function LastOf(d: Dict, k: string): Option<string> {
    if d == [] then None
    else if d[|d| - 1].0 == k then Some(d[|d| - 1].1)
    else LastOf(d[..|d| - 1], k)
  }

  /** The position of the entry named `k`. */
  function Position(d: Dict, k: string): (r: Option<nat>)
    ensures r.Some? ==> r.value < |d| && d[r.value].0 == k
    ensures r.None? ==> forall i :: 0 <= i < |d| ==> d[i].0 != k
  {
    if d == [] then None
    else if d[|d| - 1].0 == k then Some(|d| - 1)
    else Position(d[..|d| - 1], k)
  }

  /** `target[k] = v`: an existing property keeps its place and takes the new value, a new one goes last. */
  function Assign(d: Dict, k: string, v: string): Dict {
    match Position(d, k)
    case None => d + [(k, v)]
    case Some(i) => d[i := (k, v)]
  }

  /** `Object.assign(target, source)`: the entries of `source` assigned in order. */
  function Merge(d: Dict, e: Dict): Dict {
    if e == [] then d
    else Assign(Merge(d, e[..|e| - 1]), e[|e| - 1].0, e[|e| - 1].1)
  }

  /** `Object.assign(target, ...sources)`. */
  function MergeAll(d: Dict, ds: seq<Dict>): Dict {
    if ds == [] then d
    else Merge(MergeAll(d, ds[..|ds| - 1]), ds[|ds| - 1])
  }

  function Flatten(ds: seq<Dict>): Dict {
    if ds == [] then [] else Flatten(ds[..|ds| - 1]) + ds[|ds| - 1]
  }

  /** `objToParams(obj, path)`. */
  function ObjToParams(v: Value, path: string): Dict
    decreases v
  {
    match v
    case Prim(text) => [(path, text)]
    case Obj(es) =>
      MergeAll([], seq(|es|, i requires 0 <= i < |es| => ObjToParams(es[i].value, ChildPath(path, es[i].key))))
  }

  /** Every primitive of `v` with its path, in entry order, collisions included. */
  function Leaves(v: Value, path: string): Dict
    decreases v
  {
    match v
    case Prim(text) => [(path, text)]
    case Obj(es) =>
      Flatten(seq(|es|, i requires 0 <= i < |es| => Leaves(es[i].value, ChildPath(path, es[i].key))))
  }

  /** A later entry hides an earlier one of the same name. */
  lemma {:induction false} LastOfConcat(a: Dict, b: Dict, k: string)
    ensures LastOf(a + b, k) == if LastOf(b, k).Some? then LastOf(b, k) else LastOf(a, k)
  {
    if b == [] {
      assert a + b == a;
    } else {
      var n := |b| - 1;
      assert (a + b)[..|a + b| - 1] == a + b[..n];
      assert (a + b)[|a + b| - 1] == b[n];
      LastOfConcat(a, b[..n], k);
    }
  }

  lemma LastOfOne(e: (string, string), k: string)
    ensures LastOf([e], k) == if e.0 == k then Some(e.1) else None
  {
    assert [e][..0] == [];
  }

  /** Some entry of `d` is named `k`. */
  ghost predicate HasKey(d: Dict, k: string) {
    exists i :: 0 <= i < |d| && d[i].0 == k
  }

  /** A name has a value exactly when some entry carries it. */
  lemma {:induction false} LastOfSome(d: Dict, k: string)
    ensures LastOf(d, k).Some? <==> HasKey(d, k)
  {
    if d != [] {
      var n := |d| - 1;
      LastOfSome(d[..n], k);
      assert forall i :: 0 <= i < n ==> d[..n][i] == d[i];
    }
  }

  /** In a well-formed object the value of a name is that of its one entry. */
  lemma {:induction false} LastOfDistinct(d: Dict, i: nat)
    requires DistinctKeys(d) && i < |d|
    ensures LastOf(d, d[i].0) == Some(d[i].1)
  {
    var n := |d| - 1;
    if i < n {
      assert d[..n][i] == d[i];
      LastOfDistinct(d[..n], i);
    }
  }

  /** Replacing an entry whose name is not `k`, by one whose name is not `k`, leaves the value of `k` alone. */
  lemma {:induction false} LastOfUpdate(d: Dict, i: nat, e: (string, string), k: string)
    requires i < |d| && d[i].0 != k && e.0 != k
    ensures LastOf(d[i := e], k) == LastOf(d, k)
  {
    var n := |d| - 1;
    if i < n {
      assert d[i := e][..n] == d[..n][i := e];
      LastOfUpdate(d[..n], i, e, k);
    } else {
      assert d[i := e][..n] == d[..n];
    }
  }

  /** Assigning keeps an object well formed and acts as appending the entry. */
  lemma AssignSpec(d: Dict, k: string, v: string)
    requires DistinctKeys(d)
    ensures DistinctKeys(Assign(d, k, v))
    ensures forall k' :: LastOf(Assign(d, k, v), k') == LastOf(d + [(k, v)], k')
  {
    var r := Assign(d, k, v);
    assert (d + [(k, v)])[..|d|] == d;
    match Position(d, k)
    case None =>
    case Some(i) =>
      assert DistinctKeys(r);
      LastOfDistinct(r, i);
      forall k' | k' != k
        ensures LastOf(r, k') == LastOf(d, k')
      {
        LastOfUpdate(d, i, (k, v), k');
      }
  }

  /** Merging keeps an object well formed and acts as appending the source's entries. */
  lemma {:induction false} MergeSpec(d: Dict, e: Dict)
    requires DistinctKeys(d)
    ensures DistinctKeys(Merge(d, e))
    ensures forall k :: LastOf(Merge(d, e), k) == LastOf(d + e, k)
  {
    if e == [] {
      assert d + e == d;
    } else {
      var n := |e| - 1;
      MergeSpec(d, e[..n]);
      AssignSpec(Merge(d, e[..n]), e[n].0, e[n].1);
      forall k
        ensures LastOf(Merge(d, e), k) == LastOf(d + e, k)
      {
        LastOfConcat(Merge(d, e[..n]), [e[n]], k);
        LastOfConcat(d + e[..n], [e[n]], k);
        assert d + e == d + e[..n] + [e[n]];
      }
    }
  }

  /** Merging several sources acts as appending all their entries. */
  lemma {:induction false} MergeAllSpec(d: Dict, ds: seq<Dict>)
    requires DistinctKeys(d)
    ensures DistinctKeys(MergeAll(d, ds))
    ensures forall k :: LastOf(MergeAll(d, ds), k) == LastOf(d + Flatten(ds), k)
  {
    if ds == [] {
      assert d + Flatten(ds) == d;
    } else {
      var n := |ds| - 1;
      MergeAllSpec(d, ds[..n]);
      MergeSpec(MergeAll(d, ds[..n]), ds[n]);
      forall k
        ensures LastOf(MergeAll(d, ds), k) == LastOf(d + Flatten(ds), k)
      {
        LastOfConcat(MergeAll(d, ds[..n]), ds[n], k);
        LastOfConcat(d + Flatten(ds[..n]), ds[n], k);
        assert d + Flatten(ds) == d + Flatten(ds[..n]) + ds[n];
      }
    }
  }

  /** Concatenations of pieces that agree name by name agree name by name. */
  lemma {:induction false} FlattenAgree(cs: seq<Dict>, ls: seq<Dict>, k: string)
    requires |cs| == |ls| && forall i :: 0 <= i < |cs| ==> LastOf(cs[i], k) == LastOf(ls[i], k)
    ensures LastOf(Flatten(cs), k) == LastOf(Flatten(ls), k)
  {
    if cs != [] {
      var n := |cs| - 1;
      FlattenAgree(cs[..n], ls[..n], k);
      LastOfConcat(Flatten(cs[..n]), cs[n], k);
      LastOfConcat(Flatten(ls[..n]), ls[n], k);
    }
  }

  /**
   * The flattening is a well-formed object in which every path names the value of
   * the last primitive at that path: it has one field per distinct leaf path, and a
   * later leaf overwrites an earlier one at the same path.
   */
  lemma {:induction false} ObjToParamsLeaves(v: Value, path: string)
    ensures DistinctKeys(ObjToParams(v, path))
    ensures forall k :: LastOf(ObjToParams(v, path), k) == LastOf(Leaves(v, path), k)
    decreases v
  {
    match v
    case Prim(text) =>
    case Obj(es) =>
      var cs := seq(|es|, i requires 0 <= i < |es| => ObjToParams(es[i].value, ChildPath(path, es[i].key)));
      var ls := seq(|es|, i requires 0 <= i < |es| => Leaves(es[i].value, ChildPath(path, es[i].key)));
      forall i | 0 <= i < |es|
        ensures forall k :: LastOf(cs[i], k) == LastOf(ls[i], k)
      {
        ObjToParamsLeaves(es[i].value, ChildPath(path, es[i].key));
      }
      MergeAllSpec([], cs);
      forall k
        ensures LastOf(ObjToParams(v, path), k) == LastOf(Leaves(v, path), k)
      {
        FlattenAgree(cs, ls, k);
        assert [] + Flatten(cs) == Flatten(cs);
      }
  }

  /** A path is a field of the flattening exactly when some primitive sits at it. */
  lemma ObjToParamsKeys(v: Value, path: string, k: string)
    ensures HasKey(ObjToParams(v, path), k) <==> HasKey(Leaves(v, path), k)
  {
    ObjToParamsLeaves(v, path);
    LastOfSome(ObjToParams(v, path), k);
    LastOfSome(Leaves(v, path), k);
  }

  /** Merging entries with new names appends them. */
  lemma {:induction false} MergeFresh(d: Dict, e: Dict)
    requires DistinctKeys(d + e)
    ensures Merge(d, e) == d + e
  {
    if e != [] {
      var n := |e| - 1;
      assert d + e == (d + e[..n]) + [e[n]];
      assert DistinctKeys(d + e[..n]) by {
        assert forall i :: 0 <= i < |d + e[..n]| ==> (d + e[..n])[i] == (d + e)[i];
      }
      MergeFresh(d, e[..n]);
      assert (d + e)[|d| + n] == e[n];
      assert Position(d + e[..n], e[n].0).None? by {
        assert forall i :: 0 <= i < |d + e[..n]| ==> (d + e[..n])[i] == (d + e)[i];
      }
    }
  }

  /** A prefix of a well-formed object is well formed. */
  lemma DistinctPrefix(d: Dict, n: nat)
    requires DistinctKeys(d) && n <= |d|
    ensures DistinctKeys(d[..n])
  {
    assert forall i :: 0 <= i < n ==> d[..n][i] == d[i];
  }

  /** Sources listing only new names, and agreeing with `ls` piece by piece, merge into the concatenation of `ls`. */
  lemma {:induction false} MergeAllFresh(cs: seq<Dict>, ls: seq<Dict>)
    requires |cs| == |ls| && DistinctKeys(Flatten(ls))
    requires forall i :: 0 <= i < |cs| && DistinctKeys(ls[i]) ==> cs[i] == ls[i]
    ensures MergeAll([], cs) == Flatten(ls)
  {
    if cs != [] {
      var n := |cs| - 1;
      var f := Flatten(ls[..n]);
      assert Flatten(ls) == f + ls[n];
      DistinctPrefix(Flatten(ls), |f|);
      assert (f + ls[n])[..|f|] == f;
      MergeAllFresh(cs[..n], ls[..n]);
      assert DistinctKeys(ls[n]) by {
        assert forall i :: 0 <= i < |ls[n]| ==> ls[n][i] == Flatten(ls)[|f| + i];
      }
      MergeFresh(f, ls[n]);
    }
  }

  /** With distinct leaf paths the flattening is exactly the leaves, in entry order. */
  lemma {:induction false} ObjToParamsDistinct(v: Value, path: string)
    requires DistinctKeys(Leaves(v, path))
    ensures ObjToParams(v, path) == Leaves(v, path)
    decreases v
  {
    match v
    case Prim(text) =>
    case Obj(es) =>
      var cs := seq(|es|, i requires 0 <= i < |es| => ObjToParams(es[i].value, ChildPath(path, es[i].key)));
      var ls := seq(|es|, i requires 0 <= i < |es| => Leaves(es[i].value, ChildPath(path, es[i].key)));
      forall i | 0 <= i < |es| && DistinctKeys(ls[i])
        ensures cs[i] == ls[i]
      {
        ObjToParamsDistinct(es[i].value, ChildPath(path, es[i].key));
      }
      MergeAllFresh(cs, ls);
  }

  lemma FlattenOne(d: Dict)
    ensures Flatten([d]) == d
  {
    assert [d][..0] == [];
    assert [] + d == d;
  }

  /** The search request of src/App.tsx:113-117 names its one field `constraints[ids][0]`. */
  lemma ConstraintsExample(id: string)
    ensures ObjToParams(Obj([Entry("constraints", Obj([Entry("ids", Array([Prim(id)]))]))]), "")
      == [("constraints[ids][0]", id)]
  {
    var arr := Array([Prim(id)]);
    assert Decimal(0) == "0";
    assert arr == Obj([Entry("0", Prim(id))]);
    var inner := Obj([Entry("ids", arr)]);
    var outer := Obj([Entry("constraints", inner)]);
    assert ChildPath("", "constraints") == "constraints";
    assert ChildPath("constraints", "ids") == "constraints[ids]";
    assert ChildPath("constraints[ids]", "0") == "constraints[ids][0]";
    FlattenOne(Leaves(Prim(id), "constraints[ids][0]"));
    assert Leaves(arr, "constraints[ids]") == [("constraints[ids][0]", id)];
    FlattenOne(Leaves(arr, "constraints[ids]"));
    assert Leaves(inner, "constraints") == [("constraints[ids][0]", id)];
    FlattenOne(Leaves(inner, "constraints"));
    assert Leaves(outer, "") == [("constraints[ids][0]", id)];
    ObjToParamsDistinct(outer, "");
  }

  /** The name of the token field. */
  const TokenKey: string := "api.token"

  /** `{ "api.token": token, ...objToParams(data) }`. */
  function RequestParams(token: string, data: Value): Dict {
    Merge([(TokenKey, token)], ObjToParams(data, ""))
  }

  /**
   * The token field comes first; it holds the token unless the data has a field of
   * that name, which then overrides it; every other field is the data's.
   */
  lemma RequestParamsSpec(token: string, data: Value)
    ensures DistinctKeys(RequestParams(token, data))
    ensures |RequestParams(token, data)| > 0 && RequestParams(token, data)[0].0 == TokenKey
    ensures LastOf(RequestParams(token, data), TokenKey)
      == if LastOf(Leaves(data, ""), TokenKey).Some? then LastOf(Leaves(data, ""), TokenKey) else Some(token)
    ensures forall k :: k != TokenKey ==> LastOf(RequestParams(token, data), k) == LastOf(Leaves(data, ""), k)
  {
    var first, flat := [(TokenKey, token)], ObjToParams(data, "");
    ObjToParamsLeaves(data, "");
    MergeSpec(first, flat);
    forall k
      ensures LastOf(RequestParams(token, data), k)
        == if LastOf(Leaves(data, ""), k).Some? then LastOf(Leaves(data, ""), k) else LastOf(first, k)
    {
      LastOfConcat(first, flat, k);
      LastOfOne(first[0], k);
    }
    forall k | k != TokenKey
      ensures LastOf(RequestParams(token, data), k) == LastOf(Leaves(data, ""), k)
    {
      LastOfOne(first[0], k);
      assert LastOf(first, k) == None;
      assert LastOf(RequestParams(token, data), k)
        == if LastOf(Leaves(data, ""), k).Some? then LastOf(Leaves(data, ""), k) else None;
    }
    MergeKeepsFirst(first, flat);
  }

  /** Merging never moves or removes a field of the target. */
  lemma {:induction false} MergeKeepsFirst(d: Dict, e: Dict)
    ensures |Merge(d, e)| >= |d| && forall i :: 0 <= i < |d| ==> Merge(d, e)[i].0 == d[i].0
  {
    if e != [] {
      MergeKeepsFirst(d, e[..|e| - 1]);
    }
  }

  /** `parts.join(c)`. */
  function Join(parts: seq<string>, c: char): string {
    if parts == [] then ""
    else if |parts| == 1 then parts[0]
    else parts[0] + [c] + Join(parts[1..], c)
  }

  /** Cutting a text at every `c`: the inverse of `Join` on parts without `c`. */
  function Split(s: string, c: char): (parts: seq<string>)
    ensures |parts| > 0
  {
    if s == [] then [""]
    else
      var rest := Split(s[1..], c);
      if s[0] == c then [""] + rest else [[s[0]] + rest[0]] + rest[1..]
  }

  /** The text before the first `c` and the text after it. */
  function Cut(s: string, c: char): (string, string) {
    if s == [] then ("", "")
    else if s[0] == c then ("", s[1..])
    else var r := Cut(s[1..], c); ([s[0]] + r.0, r.1)
  }

  /** `${enc(key)}=${enc(value)}`. */
  function Field(enc: string -> string, f: (string, string)): string {
    enc(f.0) + "=" + enc(f.1)
  }

  /** The request body: every field rendered by `Field`, joined with `&`. */
  function Body(enc: string -> string, params: Dict): string {
    Join(seq(|params|, i requires 0 <= i < |params| => Field(enc, params[i])), '&')
  }

  /** Reading a body back: split at `&`, each part cut at its first `=`, both halves decoded. */
  function ParseBody(body: string, dec: string -> string): Dict {
    var parts := Split(body, '&');
    seq(|parts|, i requires 0 <= i < |parts| => var f := Cut(parts[i], '='); (dec(f.0), dec(f.1)))
  }

  /** A part without `c` followed by `c` is cut off as the first part. */
  lemma {:induction false} SplitFirst(a: string, b: string, c: char)
    requires c !in a
    ensures Split(a + [c] + b, c) == [a] + Split(b, c)
  {
    if a != [] {
      assert (a + [c] + b)[1..] == a[1..] + [c] + b;
      SplitFirst(a[1..], b, c);
      assert [a[0]] + a[1..] == a;
    }
  }

  /** A part without `c` is a single part. */
  lemma {:induction false} SplitNone(a: string, c: char)
    requires c !in a
    ensures Split(a, c) == [a]
  {
    if a != [] {
      SplitNone(a[1..], c);
      assert [a[0]] + a[1..] == a;
    }
  }

  /** Splitting undoes joining parts that do not contain the separator. */
  lemma {:induction false} SplitJoin(parts: seq<string>, c: char)
    requires |parts| > 0 && forall i :: 0 <= i < |parts| ==> c !in parts[i]
    ensures Split(Join(parts, c), c) == parts
  {
    if |parts| == 1 {
      SplitNone(parts[0], c);
    } else {
      SplitJoin(parts[1..], c);
      SplitFirst(parts[0], Join(parts[1..], c), c);
    }
  }

  /** Cutting at the first `c` separates a part without `c` from what follows. */
  lemma {:induction false} CutFirst(a: string, b: string, c: char)
    requires c !in a
    ensures Cut(a + [c] + b, c) == (a, b)
  {
    if a != [] {
      assert (a + [c] + b)[1..] == a[1..] + [c] + b;
      CutFirst(a[1..], b, c);
      assert [a[0]] + a[1..] == a;
    }
  }

  /**
   * When the encoder never emits `&`, the body splits at `&` into exactly the rendered
   * fields: one part per field, in order.
   */
  lemma BodyParts(enc: string -> string, params: Dict)
    requires |params| > 0
    requires forall s :: '&' !in enc(s)
    ensures Split(Body(enc, params), '&') == seq(|params|, i requires 0 <= i < |params| => Field(enc, params[i]))
    ensures |Split(Body(enc, params), '&')| == |params|
  {
    var parts := seq(|params|, i requires 0 <= i < |params| => Field(enc, params[i]));
    forall i | 0 <= i < |parts|
      ensures '&' !in parts[i]
    {
      assert parts[i] == enc(params[i].0) + "=" + enc(params[i].1);
    }
    SplitJoin(parts, '&');
  }

  /**
   * When the encoder never emits `&` or `=` and `dec` undoes it, reading the body
   * back gives the fields in order: one part per field.
   */
  lemma ParseBodyRoundTrip(enc: string -> string, dec: string -> string, params: Dict)
    requires |params| > 0
    requires forall s :: '&' !in enc(s) && '=' !in enc(s) && dec(enc(s)) == s
    ensures |Split(Body(enc, params), '&')| == |params|
    ensures ParseBody(Body(enc, params), dec) == params
  {
    var parts := seq(|params|, i requires 0 <= i < |params| => Field(enc, params[i]));
    BodyParts(enc, params);
    forall i | 0 <= i < |parts|
      ensures Cut(parts[i], '=') == (enc(params[i].0), enc(params[i].1))
    {
      assert parts[i] == enc(params[i].0) + ['='] + enc(params[i].1);
      CutFirst(enc(params[i].0), enc(params[i].1), '=');
    }
  }

  /** The body of a request: one part per field of the request parameters, token first. */
  lemma RequestBodyParts(enc: string -> string, dec: string -> string, token: string, data: Value)
    requires forall s :: '&' !in enc(s) && '=' !in enc(s) && dec(enc(s)) == s
    ensures var params := RequestParams(token, data);
      && ParseBody(Body(enc, params), dec) == params
      && ParseBody(Body(enc, params), dec)[0] == (TokenKey, params[0].1)
  {
    RequestParamsSpec(token, data);
    ParseBodyRoundTrip(enc, dec, RequestParams(token, data));
  }
}
