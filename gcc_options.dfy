/** The option-merging engine of the GCC (Closure Compiler) plugin of the build
    resolver, `plugins/gcc/options.js`, as values and functions: the option
    bags a package contributes, the two key tables, how `resolver` rewrites a
    package's path-valued options, and what `adder` makes of the collected
    fragments. The stateful operations themselves are in module GccSession. */
module GccOptions {
  import opened Wrappers
  import opened JsText
  import StableSort

  /** A value in a `build.gcc` option bag: a flag, a single string or a list. */
  datatype Value = Bool(b: bool) | Str(s: string) | Arr(items: seq<string>)

  /** An option bag: option name to value. */
  type Options = map<string, Value>

  /** One package's `build.gcc` bag as collected by `resolver`, with the
      `priority` property it stamps on it (None once `adder` deleted it). */
  datatype Fragment = Fragment(options: Options, priority: Option<int>)

  /** A package descriptor; `gcc` is its `build.gcc` block, if it has one. */
  datatype Package = Package(name: string, gcc: Option<Options>)

  /** The calls `resolver` makes into code outside this file:
      `utils.resolveModulePath(item, projectDir)` (a lookup through installed
      modules), `slash(utils.flattenPath(path.resolve(projectDir, item)))`
      (the project-relative fallback), and
      `utils.getPackagePriority(pack, depth, basePackage)`. */
  datatype Collaborators = Collaborators(
    resolveModulePath: (string, string) -> Option<string>,
    resolveFromDir: (string, string) -> string,
    packagePriority: (Package, int, Package) -> int)

  /** One recorded `define`: `name=value`. */
  datatype Define = Define(name: string, value: string)

  /** Keys whose values are file or module paths. */
  const PathKeys: seq<string> := ["conformance_configs", "js", "externs", "output_wrapper_file"]

  /** Keys whose values from several fragments are combined, not overwritten. */
  const MultiValueKeys: seq<string> := [
    "define", "externs", "extra_annotation_name", "entry_point", "hide_warnings_for",
    "js", "jscomp_error", "jscomp_off", "jscomp_warning", "module"]

  /** JavaScript truthiness of a value. */
  predicate Truthy(v: Value)
  {
    match v
    case Bool(b) => b
    case Str(s) => s != ""
    case Arr(_) => true
  }

  /** `o[k]`, with None for a missing property. */
  function Get(o: Options, k: string): Option<Value>
  {
    if k in o then Some(o[k]) else None
  }

  /** The values under which the merge code is well defined: a path key holds
      a list (or `false`); a multi-value key never holds `true` or the empty
      string (which `toArray` would pass through unchanged); `define` holds a
      list (or `false`). */
  predicate ValueFits(k: string, v: Value)
  {
    && (k in PathKeys ==> v.Arr? || v == Bool(false))
    && (k in MultiValueKeys ==> v != Bool(true) && v != Str(""))
    && (k == "define" ==> v.Arr? || v == Bool(false))
  }

  predicate Consistent(o: Options)
  {
    forall k :: k in o ==> ValueFits(k, o[k])
  }

  predicate AllConsistent(fs: seq<Fragment>)
  {
    forall i :: 0 <= i < |fs| ==> Consistent(fs[i].options)
  }

  /** A `build.gcc` block `resolver` can process: path keys hold a string or a
      list of strings (each entry goes through `startsWith`); other keys fit. */
  predicate Resolvable(o: Options)
  {
    forall k :: k in o ==> if k in PathKeys then !o[k].Bool? else ValueFits(k, o[k])
  }

  // ---------------------------------------------------------------------------
  // resolver: path resolution

  /** The entry is an exclusion pattern (`!` prefix). */
  predicate IsExclusion(item: string)
  {
    |item| > 0 && item[0] == '!'
  }

  /** Resolves an entry with its marker removed: a module lookup hit wins (an
      empty string is falsy and counts as a miss), otherwise the entry is
      resolved against the project directory. */
  function ResolveEntry(name: string, projectDir: string, env: Collaborators): (r: string)
    ensures r == env.resolveFromDir(projectDir, name)
            || (r != "" && env.resolveModulePath(name, projectDir) == Some(r))
  {
    var hit := env.resolveModulePath(name, projectDir);
    if hit.Some? && hit.value != "" then hit.value
    else env.resolveFromDir(projectDir, name)
  }

  /** `mapPaths`: strips one leading `!`, resolves the rest, puts the `!` back. */
  function MapPath(item: string, projectDir: string, env: Collaborators): (r: string)
    ensures IsExclusion(item) ==> IsExclusion(r) && r[1..] == ResolveEntry(item[1..], projectDir, env)
    ensures !IsExclusion(item) ==> r == ResolveEntry(item, projectDir, env)
  {
    if IsExclusion(item) then "!" + ResolveEntry(item[1..], projectDir, env)
    else ResolveEntry(item, projectDir, env)
  }

  /** `value instanceof Array ? value : [value]`. */
  function AsList(v: Value): seq<string>
    requires !v.Bool?
  {
    if v.Arr? then v.items else [v.s]
  }

  /** `value.map(mapPaths)`. */
  function MapPaths(items: seq<string>, projectDir: string, env: Collaborators): seq<string>
  {
    seq(|items|, i requires 0 <= i < |items| => MapPath(items[i], projectDir, env))
  }

  /** The value `resolver` leaves under key `k`. */
  function ResolvedValue(k: string, v: Value, projectDir: string, env: Collaborators): Value
    requires k in PathKeys ==> !v.Bool?
  {
    if k in PathKeys then Arr(MapPaths(AsList(v), projectDir, env)) else v
  }

  /** The `build.gcc` block after `resolver`'s loop over its keys. */
  function ResolvedOptions(o: Options, projectDir: string, env: Collaborators): (r: Options)
    requires Resolvable(o)
    ensures r.Keys == o.Keys
    ensures Consistent(r)
  {
    map k | k in o :: ResolvedValue(k, o[k], projectDir, env)
  }

  // ---------------------------------------------------------------------------
  // adder: ordering

  /** The priority `sort` compares (only read while every fragment has one). */
  function Rank(f: Fragment): (r: int)
    ensures f.priority.Some? ==> r == f.priority.value
  {
    f.priority.GetOr(0)
  }

  /** `sort(a, b) <= 0`: `a` may stay before `b`. */
  predicate ByPriority(a: Fragment, b: Fragment)
  {
    Rank(a) <= Rank(b)
  }

  /** `optionsFound.sort(sort)`: stable, ascending priority. */
  function SortedFragments(fs: seq<Fragment>): (r: seq<Fragment>)
    ensures multiset(r) == multiset(fs) && |r| == |fs|
    ensures forall i, j :: 0 <= i < j < |r| ==> Rank(r[i]) <= Rank(r[j])
  {
    ByPriorityIsTotalPreorder();
    StableSort.InsertionSortSorted(fs, ByPriority);
    var r := StableSort.InsertionSort(fs, ByPriority);
    assert |r| == |multiset(r)| == |multiset(fs)| == |fs|;
    r
  }

  lemma ByPriorityIsTotalPreorder()
    ensures StableSort.TotalPreorder(ByPriority)
  {
  }

  lemma SortedFragmentsConsistent(fs: seq<Fragment>)
    requires AllConsistent(fs)
    ensures AllConsistent(SortedFragments(fs))
    ensures |SortedFragments(fs)| == |fs|
  {
    var r := SortedFragments(fs);
    assert |r| == |multiset(r)| == |multiset(fs)| == |fs|;
    forall i | 0 <= i < |r| ensures Consistent(r[i].options) {
      StableSort.MembersOfPermutation(r, fs, r[i]);
    }
  }

  /** The fragments with their `priority` deleted, as `adder` leaves them. */
  function WithoutPriority(fs: seq<Fragment>): (r: seq<Fragment>)
  {
    seq(|fs|, i requires 0 <= i < |fs| => fs[i].(priority := None))
  }

  // ---------------------------------------------------------------------------
  // adder: folding one fragment into the base object

  /** `toArray`: a falsy value passes through, a list stays, anything else is
      wrapped into a one-element list. */
  function ToArray(v: Value): (r: Value)
    requires v != Bool(true)
    ensures Truthy(v) ==> r.Arr?
    ensures !Truthy(v) ==> r == v
  {
    if !Truthy(v) || v.Arr? then v else Arr([v.s])
  }

  /** What the reduce callback leaves under `key` (None: absent) when the
      fragment's `value` meets the accumulated `cur`. */
  function MergeKey(key: string, cur: Option<Value>, value: Value): (r: Option<Value>)
    requires ValueFits(key, value)
    requires cur.Some? ==> ValueFits(key, cur.value)
    ensures r.Some? ==> ValueFits(key, r.value)
    ensures cur.Some? ==> r.Some?
  {
    if value.Bool? || key !in MultiValueKeys then Some(value)
    else if key == "define" then cur
    else
      var incoming := ToArray(value);
      if cur.Some? && Truthy(cur.value) then
        var current := ToArray(cur.value);
        Some(Arr(if key == "externs" then incoming.items + current.items
                 else current.items + incoming.items))
      else Some(incoming)
  }

  /** The base object after one fragment's keys have been folded into it. */
  function FoldOptions(acc: Options, frag: Options): (r: Options)
    requires Consistent(acc) && Consistent(frag)
    ensures Consistent(r)
    ensures forall k :: Get(r, k) == if k in frag then MergeKey(k, Get(acc, k), frag[k]) else Get(acc, k)
  {
    map k | k in acc.Keys + frag.Keys && (k in frag ==> MergeKey(k, Get(acc, k), frag[k]).Some?) ::
      if k in frag then MergeKey(k, Get(acc, k), frag[k]).value else acc[k]
  }

  /** The base object after one key of a fragment has been merged into it. */
  function FoldKey(acc: Options, key: string, value: Value): Options
    requires Consistent(acc) && ValueFits(key, value)
  {
    match MergeKey(key, Get(acc, key), value)
    case Some(v) => acc[key := v]
    case None => acc
  }

  /** Maps that agree on every lookup are equal. */
  lemma GetExtensional(a: Options, b: Options)
    requires forall k :: Get(a, k) == Get(b, k)
    ensures a == b
  {
    assert a.Keys == b.Keys by {
      forall k ensures k in a <==> k in b { assert Get(a, k) == Get(b, k); }
    }
    forall k | k in a ensures a[k] == b[k] { assert Get(a, k) == Get(b, k); }
  }

  /** Folding a fragment one more key at a time: the keys of a fragment are
      merged independently, so any enumeration order gives the same object. */
  lemma FoldOptionsStep(acc: Options, done: Options, key: string, value: Value)
    requires Consistent(acc) && Consistent(done) && ValueFits(key, value) && key !in done
    ensures Consistent(done[key := value])
    ensures FoldOptions(acc, done[key := value]) == FoldKey(FoldOptions(acc, done), key, value)
  {
    var mid := FoldOptions(acc, done);
    var lhs := FoldOptions(acc, done[key := value]);
    var rhs := FoldKey(mid, key, value);
    forall k ensures Get(lhs, k) == Get(rhs, k) {
      GetFoldKey(mid, key, value, k);
      if k == key {
        assert Get(mid, key) == Get(acc, key);
        assert Get(lhs, k) == MergeKey(key, Get(acc, key), value);
      } else {
        assert Get(lhs, k) == Get(mid, k);
      }
    }
    GetExtensional(lhs, rhs);
  }

  /** What `FoldKey` leaves under each key. */
  lemma GetFoldKey(acc: Options, key: string, value: Value, k: string)
    requires Consistent(acc) && ValueFits(key, value)
    ensures Get(FoldKey(acc, key, value), k) == if k == key then MergeKey(key, Get(acc, key), value) else Get(acc, k)
  {
  }

  /** One more key of `frag` folded: the keys left to do shrink by `key`. */
  lemma FoldFragmentStep(acc: Options, frag: Options, keys: set<string>, key: string)
    requires Consistent(acc) && Consistent(frag) && key in keys && key in frag
    ensures Consistent(frag - keys) && Consistent(frag - (keys - {key}))
    ensures ValueFits(key, frag[key])
    ensures FoldOptions(acc, frag - (keys - {key})) == FoldKey(FoldOptions(acc, frag - keys), key, frag[key])
    ensures DefinesOf(frag - (keys - {key})) ==
      if key == "define" && frag[key].Arr? then frag[key].items else DefinesOf(frag - keys)
  {
    var done := frag - keys;
    assert frag - (keys - {key}) == done[key := frag[key]];
    FoldOptionsStep(acc, done, key, frag[key]);
  }

  /** The base object after the reduce over `fs`, left to right. */
  function FoldAll(base: Options, fs: seq<Fragment>): (r: Options)
    requires Consistent(base) && AllConsistent(fs)
    ensures Consistent(r)
  {
    if fs == [] then base
    else
      FoldOptions(FoldAll(base, fs[..|fs| - 1]), fs[|fs| - 1].options)
  }

  /** One more fragment of the reduce. */
  lemma FoldAllStep(base: Options, fs: seq<Fragment>, i: nat)
    requires Consistent(base) && AllConsistent(fs) && i < |fs|
    ensures AllConsistent(fs[..i]) && AllConsistent(fs[..i + 1])
    ensures FoldAll(base, fs[..i + 1]) == FoldOptions(FoldAll(base, fs[..i]), fs[i].options)
    ensures DefineEntries(fs[..i + 1]) == DefineEntries(fs[..i]) + DefinesOf(fs[i].options)
  {
    assert fs[..i + 1][..i] == fs[..i];
  }

  /** Deleting one more fragment's priority. */
  lemma WithoutPriorityStep(fs: seq<Fragment>, i: nat)
    requires i < |fs|
    ensures (WithoutPriority(fs[..i]) + fs[i..])[i := fs[i].(priority := None)]
            == WithoutPriority(fs[..i + 1]) + fs[i + 1..]
  {
  }

  // ---------------------------------------------------------------------------
  // adder: defines

  /** `d.split('=')` gives exactly two parts: the define is recorded. */
  function DefineEntry(d: string): (r: Option<Define>)
    ensures r.Some? <==> Count(d, '=') == 1
    ensures r.Some? ==> d == r.value.name + "=" + r.value.value
    ensures r.Some? ==> '=' !in r.value.name && '=' !in r.value.value
  {
    var parts := Split(d, '=');
    JoinSplit(d, '=');
    if |parts| == 2 then
      assert Join(parts, '=') == parts[0] + "=" + parts[1];
      Some(Define(parts[0], parts[1]))
    else None
  }

  function Names(defs: seq<Define>): seq<string>
  {
    seq(|defs|, i requires 0 <= i < |defs| => defs[i].name)
  }

  /** `definesFound[name]`. */
  function Lookup(defs: seq<Define>, name: string): (r: Option<string>)
    ensures r.Some? ==> Define(name, r.value) in defs
    ensures r.None? ==> name !in Names(defs)
  {
    if defs == [] then None
    else if defs[0].name == name then Some(defs[0].value)
    else
      assert Names(defs) == [defs[0].name] + Names(defs[1..]);
      Lookup(defs[1..], name)
  }

  /** `definesFound[name] = value`: an existing name keeps its place, a new
      one is added last. */
  function Put(defs: seq<Define>, name: string, value: string): (r: seq<Define>)
    ensures Define(name, value) in r
    ensures |r| == if name in Names(defs) then |defs| else |defs| + 1
  {
    if defs == [] then [Define(name, value)]
    else
      assert Names(defs) == [defs[0].name] + Names(defs[1..]);
      if defs[0].name == name then [Define(name, value)] + defs[1..]
      else [defs[0]] + Put(defs[1..], name, value)
  }

  /** After `Put`, the name maps to the new value and every other name to
      what it mapped to before. */
  lemma {:induction false} LookupPut(defs: seq<Define>, name: string, value: string, n: string)
    ensures Lookup(Put(defs, name, value), n) == if n == name then Some(value) else Lookup(defs, n)
  {
    if defs != [] && defs[0].name != name {
      LookupPut(defs[1..], name, value, n);
      assert ([defs[0]] + Put(defs[1..], name, value))[1..] == Put(defs[1..], name, value);
    }
  }

  lemma NamesCons(d: Define, rest: seq<Define>)
    ensures Names([d] + rest) == [d.name] + Names(rest)
  {
  }

  /** `Put` keeps the insertion order of the names: an existing name stays
      where it is, a new one goes last. */
  lemma {:induction false} NamesPut(defs: seq<Define>, name: string, value: string)
    ensures Names(Put(defs, name, value)) == if name in Names(defs) then Names(defs) else Names(defs) + [name]
  {
    if defs != [] {
      var head, rest := defs[0], defs[1..];
      assert defs == [head] + rest;
      NamesCons(head, rest);
      if head.name == name {
        NamesCons(Define(name, value), rest);
      } else {
        var put := Put(rest, name, value);
        assert Names(put) == if name in Names(rest) then Names(rest) else Names(rest) + [name] by {
          NamesPut(rest, name, value);
        }
        NamesCons(head, put);
        assert name in Names(defs) <==> name in Names(rest);
        assert [head.name] + (Names(rest) + [name]) == ([head.name] + Names(rest)) + [name];
      }
    }
  }

  /** Every define `Put` leaves is the new one or was there before. */
  lemma {:induction false} PutMembers(defs: seq<Define>, name: string, value: string)
    ensures forall d :: d in Put(defs, name, value) ==> d == Define(name, value) || d in defs
  {
    if defs != [] && defs[0].name != name {
      PutMembers(defs[1..], name, value);
    }
  }

  /** Every name recorded once, and no `=` in any name or value. */
  predicate WellFormedDefines(defs: seq<Define>)
  {
    && (forall i, j :: 0 <= i < j < |defs| ==> defs[i].name != defs[j].name)
    && (forall i :: 0 <= i < |defs| ==> '=' !in defs[i].name && '=' !in defs[i].value)
  }

  lemma PutWellFormed(defs: seq<Define>, name: string, value: string)
    requires WellFormedDefines(defs) && '=' !in name && '=' !in value
    ensures WellFormedDefines(Put(defs, name, value))
  {
    var r := Put(defs, name, value);
    NamesPut(defs, name, value);
    PutMembers(defs, name, value);
    forall i, j | 0 <= i < j < |r| ensures r[i].name != r[j].name {
      assert r[i].name == Names(r)[i] && r[j].name == Names(r)[j];
      assert Names(r)[i] == Names(defs)[i] == defs[i].name;
      if j < |defs| {
        assert Names(r)[j] == Names(defs)[j] == defs[j].name;
      } else {
        assert Names(r)[j] == name;
      }
    }
    forall i | 0 <= i < |r| ensures '=' !in r[i].name && '=' !in r[i].value {
      assert r[i] in r;
      if r[i] != Define(name, value) {
        var k :| 0 <= k < |defs| && defs[k] == r[i];
      }
    }
  }

  /** Recording entries in two batches is recording them all. */
  lemma {:induction false} RecordAllAppend(defs: seq<Define>, a: seq<string>, b: seq<string>)
    ensures RecordAll(defs, a + b) == RecordAll(RecordAll(defs, a), b)
  {
    if b == [] {
      assert a + b == a;
    } else {
      RecordAllAppend(defs, a, b[..|b| - 1]);
      assert (a + b)[..|a + b| - 1] == a + b[..|b| - 1];
      assert (a + b)[|a + b| - 1] == b[|b| - 1];
    }
  }

  /** Recording keeps the defines map well formed. */
  lemma {:induction false} RecordAllWellFormed(defs: seq<Define>, entries: seq<string>)
    requires WellFormedDefines(defs)
    ensures WellFormedDefines(RecordAll(defs, entries))
  {
    if entries != [] {
      RecordAllWellFormed(defs, entries[..|entries| - 1]);
      var before := RecordAll(defs, entries[..|entries| - 1]);
      match DefineEntry(entries[|entries| - 1])
      case Some(d) => PutWellFormed(before, d.name, d.value);
      case None =>
    }
  }

  /** The `forEach` over a fragment's `define` list, over all entries in order. */
  function RecordAll(defs: seq<Define>, entries: seq<string>): seq<Define>
  {
    if entries == [] then defs
    else
      var before := RecordAll(defs, entries[..|entries| - 1]);
      match DefineEntry(entries[|entries| - 1])
      case Some(d) => Put(before, d.name, d.value)
      case None => before
  }

  /** The entries a fragment hands to the defines map (a `define` that is not
      a boolean). */
  function DefinesOf(frag: Options): seq<string>
  {
    if "define" in frag && frag["define"].Arr? then frag["define"].items else []
  }

  lemma DefinesOfStep(done: Options, key: string, value: Value)
    ensures DefinesOf(done[key := value]) ==
      if key == "define" then (if value.Arr? then value.items else []) else DefinesOf(done)
  {
  }

  /** All define entries of `fs`, in fold order. */
  function DefineEntries(fs: seq<Fragment>): seq<string>
  {
    if fs == [] then [] else DefineEntries(fs[..|fs| - 1]) + DefinesOf(fs[|fs| - 1].options)
  }

  /** `key + '=' + definesFound[key]` for every recorded define, in order. */
  function Expand(defs: seq<Define>): seq<string>
  {
    seq(|defs|, i requires 0 <= i < |defs| => defs[i].name + "=" + defs[i].value)
  }

  /** The `define` list already on the base object (a falsy one is replaced by
      an empty list before the first push). */
  function DefineItems(o: Options): seq<string>
  {
    if "define" in o && o["define"].Arr? then o["define"].items else []
  }

  /** The base object after the loop over `definesFound`. */
  function ExpandDefines(o: Options, defs: seq<Define>): (r: Options)
    ensures Consistent(o) ==> Consistent(r)
  {
    if defs == [] then o else o["define" := Arr(DefineItems(o) + Expand(defs))]
  }

  /** Pushing one more recorded define onto the (possibly new) list. */
  lemma ExpandDefinesStep(o: Options, defs: seq<Define>, j: nat)
    requires Consistent(o) && j < |defs|
    ensures var cur := ExpandDefines(o, defs[..j]);
      ExpandDefines(o, defs[..j + 1]) == cur["define" := Arr(DefineItems(cur) + [defs[j].name + "=" + defs[j].value])]
  {
    var cur := ExpandDefines(o, defs[..j]);
    var e := defs[j].name + "=" + defs[j].value;
    assert Expand(defs[..j + 1]) == Expand(defs[..j]) + [e];
    assert defs[..j + 1] != [];
    if j > 0 {
      assert DefineItems(cur) == DefineItems(o) + Expand(defs[..j]);
      assert DefineItems(cur) + [e] == DefineItems(o) + Expand(defs[..j + 1]);
      assert cur["define" := Arr(DefineItems(cur) + [e])] == o["define" := Arr(DefineItems(cur) + [e])];
    } else {
      assert defs[..j] == [] && cur == o;
      assert Expand(defs[..j + 1]) == [e];
    }
  }

  // ---------------------------------------------------------------------------
  // adder: final sort of the path lists

  /** `list.sort()` on a present list. */
  function SortedValue(v: Value): (r: Value)
    ensures !v.Arr? ==> r == v
    ensures v.Arr? ==> r.Arr? && multiset(r.items) == multiset(v.items)
                       && StableSort.Sorted(r.items, LexLe)
  {
    if v.Arr? then
      LexLeIsTotalOrder();
      StableSort.InsertionSortSorted(v.items, LexLe);
      Arr(StableSort.InsertionSort(v.items, LexLe))
    else v
  }

  /** The object with the lists under `keys` sorted. */
  function SortKeys(o: Options, keys: seq<string>): (r: Options)
    ensures r.Keys == o.Keys
    ensures forall k :: k in o && k !in keys ==> r[k] == o[k]
  {
    map k | k in o :: if k in keys then SortedValue(o[k]) else o[k]
  }

  /** The base object after `pathKeys.forEach(... list.sort())`. */
  function SortPathKeys(o: Options): (r: Options)
    ensures r.Keys == o.Keys
    ensures forall k :: k in o && k !in PathKeys ==> r[k] == o[k]
  {
    SortKeys(o, PathKeys)
  }

  lemma SortKeysStep(o: Options, keys: seq<string>, key: string)
    requires key !in keys
    ensures SortKeys(o, keys + [key]) ==
      if key in o then SortKeys(o, keys)[key := SortedValue(o[key])] else SortKeys(o, keys)
  {
  }

  /** Sorting the list under one more path key (only a truthy value, which
      is then a list, is sorted). */
  lemma SortKeysNext(o: Options, i: nat)
    requires Consistent(o) && i < |PathKeys|
    ensures var cur := SortKeys(o, PathKeys[..i]);
      var key := PathKeys[i];
      && (key in cur && Truthy(cur[key]) ==> cur[key].Arr?)
      && SortKeys(o, PathKeys[..i + 1]) ==
           if key in cur && Truthy(cur[key]) then cur[key := Arr(StableSort.InsertionSort(cur[key].items, LexLe))]
           else cur
  {
    var key := PathKeys[i];
    PathKeysDistinct();
    assert key !in PathKeys[..i];
    SortKeysStep(o, PathKeys[..i], key);
    assert PathKeys[..i + 1] == PathKeys[..i] + [key];
    var cur := SortKeys(o, PathKeys[..i]);
    if key in o {
      assert cur[key] == o[key];
      if !Truthy(o[key]) {
        assert cur[key := o[key]] == cur;
      }
    }
  }

  lemma PathKeysDistinct()
    ensures forall i, j :: 0 <= i < j < |PathKeys| ==> PathKeys[i] != PathKeys[j]
  {
  }

  /** Everything `adder` does to the caller's object, given the collected
      fragments and the defines recorded before the call. */
  function Merged(base: Options, found: seq<Fragment>, defs: seq<Define>): Options
    requires Consistent(base) && AllConsistent(found)
  {
    var sorted := SortedFragments(found);
    SortedFragmentsConsistent(found);
    SortPathKeys(ExpandDefines(FoldAll(base, sorted), RecordAll(defs, DefineEntries(sorted))))
  }

  /** The defines map `adder` leaves behind. */
  function MergedDefines(found: seq<Fragment>, defs: seq<Define>): (r: seq<Define>)
    ensures WellFormedDefines(defs) ==> WellFormedDefines(r)
  {
    RecordAllWellFormedIf(defs, DefineEntries(SortedFragments(found)));
    RecordAll(defs, DefineEntries(SortedFragments(found)))
  }

  lemma RecordAllWellFormedIf(defs: seq<Define>, entries: seq<string>)
    ensures WellFormedDefines(defs) ==> WellFormedDefines(RecordAll(defs, entries))
  {
    if WellFormedDefines(defs) { RecordAllWellFormed(defs, entries); }
  }
}
