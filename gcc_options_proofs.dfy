/** What the option merger of `plugins/gcc/options.js` promises, proved about
    the model in module GccOptions: how `resolver` rewrites path entries, how
    the reduce in `adder` combines fragments key by key, how defines are
    recorded and expanded, and what the final object looks like. */
module GccOptionsProofs {
  import opened Wrappers
  import opened JsText
  import opened GccOptions
  import StableSort

  // ---------------------------------------------------------------------------
  // resolver: path entries

  /** The entry with its exclusion marker (if any) removed. */
  function Unmarked(item: string): string
  {
    if IsExclusion(item) then item[1..] else item
  }

  /** The exclusion marker of an entry: "!" or nothing. */
  function Marker(item: string): string
  {
    if IsExclusion(item) then "!" else ""
  }

  /** Marker and name together are the entry. */
  lemma MarkerSplitsEntry(item: string)
    ensures Marker(item) + Unmarked(item) == item
    ensures |Marker(item)| <= 1
  {
    if IsExclusion(item) { assert item == [item[0]] + item[1..]; }
  }

  /** Only one `!` is stripped: whatever follows it (another `!` included) is
      looked up as a name, and the result carries exactly the one marker. */
  lemma ExclusionStrippedOnce(rest: string, projectDir: string, env: Collaborators)
    ensures MapPath("!" + rest, projectDir, env) == "!" + ResolveEntry(rest, projectDir, env)
  {
    assert ("!" + rest)[1..] == rest;
  }

  /** A non-empty module lookup result wins over the project-relative path. */
  lemma ModuleHitWins(item: string, projectDir: string, env: Collaborators, p: string)
    requires env.resolveModulePath(Unmarked(item), projectDir) == Some(p) && p != ""
    ensures MapPath(item, projectDir, env) == Marker(item) + p
  {
  }

  /** A lookup miss (nothing, or the empty string) falls back to the path
      relative to the project directory. */
  lemma ModuleMissFallsBack(item: string, projectDir: string, env: Collaborators)
    requires env.resolveModulePath(Unmarked(item), projectDir) in {None, Some("")}
    ensures MapPath(item, projectDir, env) == Marker(item) + env.resolveFromDir(projectDir, Unmarked(item))
  {
  }

  /** The collaborators never produce a path that starts with `!`. */
  ghost predicate MarkerFree(env: Collaborators)
  {
    && (forall name, dir :: !IsExclusion(env.resolveFromDir(dir, name)))
    && (forall name, dir :: env.resolveModulePath(name, dir).Some? ==>
          !IsExclusion(env.resolveModulePath(name, dir).value))
  }

  /** An entry is an exclusion after resolution exactly when it was one
      before. */
  lemma ExclusionPreserved(item: string, projectDir: string, env: Collaborators)
    requires MarkerFree(env)
    ensures IsExclusion(MapPath(item, projectDir, env)) <==> IsExclusion(item)
  {
    var resolved := ResolveEntry(Unmarked(item), projectDir, env);
    assert !IsExclusion(resolved);
    if IsExclusion(item) {
      assert MapPath(item, projectDir, env) == "!" + resolved;
      assert ("!" + resolved)[0] == '!';
    }
  }

  /** `resolver` leaves every key of the block in place, keeps the keys that
      are not path keys as they are, and turns each path key into a list with
      one resolved entry per original entry, in order; a single string is a
      list of one. */
  lemma ResolvedOptionsShape(o: Options, projectDir: string, env: Collaborators, k: string)
    requires Resolvable(o) && k in o
    ensures k in ResolvedOptions(o, projectDir, env)
    ensures k !in PathKeys ==> ResolvedOptions(o, projectDir, env)[k] == o[k]
    ensures k in PathKeys ==>
      var r := ResolvedOptions(o, projectDir, env)[k];
      && r.Arr?
      && |r.items| == |AsList(o[k])|
      && (o[k].Str? ==> r.items == [MapPath(o[k].s, projectDir, env)])
      && (forall i :: 0 <= i < |r.items| ==> r.items[i] == MapPath(AsList(o[k])[i], projectDir, env))
  {
  }

  // ---------------------------------------------------------------------------
  // adder: how the reduce combines fragments

  /** The fragment at index `i` is the last one of `fs` that sets `k`. */
  predicate LastSetter(fs: seq<Fragment>, k: string, i: int)
  {
    && 0 <= i < |fs|
    && k in fs[i].options
    && forall j :: i < j < |fs| ==> k !in fs[j].options
  }

  lemma PrefixConsistent(fs: seq<Fragment>, n: nat)
    requires AllConsistent(fs) && n <= |fs|
    ensures AllConsistent(fs[..n])
  {
  }

  /** A key no fragment sets keeps the value it had on the base object. */
  lemma {:induction false} UnsetKeyKept(base: Options, fs: seq<Fragment>, k: string)
    requires Consistent(base) && AllConsistent(fs)
    requires forall j :: 0 <= j < |fs| ==> k !in fs[j].options
    ensures Get(FoldAll(base, fs), k) == Get(base, k)
  {
    if fs != [] {
      var n := |fs| - 1;
      PrefixConsistent(fs, n);
      UnsetKeyKept(base, fs[..n], k);
    }
  }

  /** For a key that is not combined (not a multi-value key, or a boolean
      value), the fragment folded last that sets it decides its value. */
  lemma {:induction false} LastWriterWins(base: Options, fs: seq<Fragment>, k: string, i: int)
    requires Consistent(base) && AllConsistent(fs)
    requires LastSetter(fs, k, i)
    requires k !in MultiValueKeys || fs[i].options[k].Bool?
    ensures Get(FoldAll(base, fs), k) == Some(fs[i].options[k])
  {
    var n := |fs| - 1;
    PrefixConsistent(fs, n);
    if i < n {
      LastWriterWins(base, fs[..n], k, i);
    }
  }

  /** The entries a value stands for under a list key: a falsy value none,
      a string itself, a list its items. */
  function ListEntries(v: Value): seq<string>
  {
    if !Truthy(v) then []
    else match v
      case Arr(items) => items
      case Str(s) => [s]
      case Bool(_) => []
  }

  /** The entries under key `k` of `o` (none when the key is missing). */
  function Entries(o: Options, k: string): seq<string>
  {
    match Get(o, k)
    case None => []
    case Some(v) => ListEntries(v)
  }

  /** `toArray` changes the shape of a value, never the entries it stands
      for. */
  lemma ToArrayKeepsEntries(v: Value)
    requires v != Bool(true)
    ensures ListEntries(ToArray(v)) == ListEntries(v)
  {
  }

  /** No fragment of `fs` holds a boolean under `k`. */
  predicate NoFlags(fs: seq<Fragment>, k: string)
  {
    forall j :: 0 <= j < |fs| && k in fs[j].options ==> !fs[j].options[k].Bool?
  }

  /** What the fragments of `fs` bring to list key `k`, in fold order. */
  function Contributions(fs: seq<Fragment>, k: string): seq<string>
  {
    if fs == [] then []
    else Contributions(fs[..|fs| - 1], k) + Entries(fs[|fs| - 1].options, k)
  }

  lemma ContributionsLast(fs: seq<Fragment>, k: string)
    requires fs != []
    ensures Contributions(fs, k) == Contributions(fs[..|fs| - 1], k) + Entries(fs[|fs| - 1].options, k)
  {
  }

  lemma PrependedLast(fs: seq<Fragment>, k: string)
    requires fs != []
    ensures PrependedContributions(fs, k) == Entries(fs[|fs| - 1].options, k) + PrependedContributions(fs[..|fs| - 1], k)
  {
  }

  lemma AppendAssociative(a: seq<string>, b: seq<string>, c: seq<string>)
    ensures (a + b) + c == a + (b + c)
  {
  }

  /** The same contributions, each fragment's block put in front of the
      earlier ones (the way `externs` are combined). */
  function PrependedContributions(fs: seq<Fragment>, k: string): seq<string>
  {
    if fs == [] then []
    else Entries(fs[|fs| - 1].options, k) + PrependedContributions(fs[..|fs| - 1], k)
  }

  lemma {:induction false} PrependedSameEntries(fs: seq<Fragment>, k: string)
    ensures multiset(PrependedContributions(fs, k)) == multiset(Contributions(fs, k))
  {
    if fs != [] {
      PrependedSameEntries(fs[..|fs| - 1], k);
    }
  }

  /** One fragment folded into a list key: its entries go after the current
      ones, or in front of them for `externs`; an absent or falsy current
      value counts as no entries. */
  lemma EntriesFoldStep(acc: Options, frag: Options, k: string)
    requires Consistent(acc) && Consistent(frag)
    requires k in MultiValueKeys && k != "define"
    requires k in frag ==> !frag[k].Bool?
    ensures Entries(FoldOptions(acc, frag), k) ==
      if k == "externs" then Entries(frag, k) + Entries(acc, k) else Entries(acc, k) + Entries(frag, k)
  {
    var r := FoldOptions(acc, frag);
    if k in frag {
      assert Get(r, k) == MergeKey(k, Get(acc, k), frag[k]);
      MergeKeyEntries(k, Get(acc, k), frag[k]);
    } else {
      assert Get(r, k) == Get(acc, k);
      assert Entries(frag, k) == [];
    }
  }

  /** One list value meeting the accumulated one under `k`. */
  lemma MergeKeyEntries(k: string, cur: Option<Value>, v: Value)
    requires k in MultiValueKeys && k != "define" && !v.Bool?
    requires ValueFits(k, v) && (cur.Some? ==> ValueFits(k, cur.value))
    ensures MergeKey(k, cur, v).Some?
    ensures var before := if cur.Some? then ListEntries(cur.value) else [];
            ListEntries(MergeKey(k, cur, v).value) ==
              if k == "externs" then ListEntries(v) + before else before + ListEntries(v)
  {
  }

  lemma NoFlagsPrefix(fs: seq<Fragment>, k: string, n: nat)
    requires NoFlags(fs, k) && n <= |fs|
    ensures NoFlags(fs[..n], k)
  {
  }

  /** The last fragment of the reduce folded into a list key. */
  lemma EntriesFoldAllStep(base: Options, fs: seq<Fragment>, k: string)
    requires Consistent(base) && AllConsistent(fs) && fs != []
    requires k in MultiValueKeys && k != "define"
    requires NoFlags(fs, k)
    ensures AllConsistent(fs[..|fs| - 1])
    ensures var acc := Entries(FoldAll(base, fs[..|fs| - 1]), k);
            var last := Entries(fs[|fs| - 1].options, k);
            Entries(FoldAll(base, fs), k) == if k == "externs" then last + acc else acc + last
  {
    var n := |fs| - 1;
    PrefixConsistent(fs, n);
    var acc := FoldAll(base, fs[..n]);
    var frag := fs[n].options;
    assert k in frag ==> !frag[k].Bool?;
    var step := if k == "externs" then Entries(frag, k) + Entries(acc, k) else Entries(acc, k) + Entries(frag, k);
    assert Entries(FoldOptions(acc, frag), k) == step by {
      EntriesFoldStep(acc, frag, k);
    }
  }

  /** A multi-value key other than `define` and `externs` ends up holding the
      base object's entries followed by every fragment's, in fold order. */
  lemma {:induction false} ListKeyAccumulates(base: Options, fs: seq<Fragment>, k: string)
    requires Consistent(base) && AllConsistent(fs)
    requires k in MultiValueKeys && k != "define" && k != "externs"
    requires NoFlags(fs, k)
    ensures Entries(FoldAll(base, fs), k) == Entries(base, k) + Contributions(fs, k)
  {
    if fs == [] {
      assert FoldAll(base, fs) == base;
      assert Entries(base, k) + [] == Entries(base, k);
    } else {
      var n := |fs| - 1;
      assert AllConsistent(fs[..n]) by { PrefixConsistent(fs, n); }
      assert Entries(FoldAll(base, fs[..n]), k) == Entries(base, k) + Contributions(fs[..n], k) by {
        NoFlagsPrefix(fs, k, n);
        ListKeyAccumulates(base, fs[..n], k);
      }
      assert Entries(FoldAll(base, fs), k) == Entries(FoldAll(base, fs[..n]), k) + Entries(fs[n].options, k) by {
        EntriesFoldAllStep(base, fs, k);
      }
      ContributionsLast(fs, k);
      AppendAssociative(Entries(base, k), Contributions(fs[..n], k), Entries(fs[n].options, k));
    }
  }

  /** `externs` end up with each fragment's entries in front of the earlier
      ones, and the base object's entries last. */
  lemma {:induction false} ExternsPrepended(base: Options, fs: seq<Fragment>)
    requires Consistent(base) && AllConsistent(fs)
    requires NoFlags(fs, "externs")
    ensures Entries(FoldAll(base, fs), "externs") ==
            PrependedContributions(fs, "externs") + Entries(base, "externs")
  {
    if fs != [] {
      var n := |fs| - 1;
      EntriesFoldAllStep(base, fs, "externs");
      NoFlagsPrefix(fs, "externs", n);
      ExternsPrepended(base, fs[..n]);
      PrependedLast(fs, "externs");
      AppendAssociative(Entries(fs[n].options, "externs"), PrependedContributions(fs[..n], "externs"),
                        Entries(base, "externs"));
    }
  }

  /** The reduce leaves the base object's own `define` alone (its value is
      only replaced by a boolean one); the fragments' define lists go to the
      defines map instead. */
  lemma {:induction false} DefineKeyNotFolded(base: Options, fs: seq<Fragment>)
    requires Consistent(base) && AllConsistent(fs)
    requires NoFlags(fs, "define")
    ensures Get(FoldAll(base, fs), "define") == Get(base, "define")
  {
    if fs != [] {
      var n := |fs| - 1;
      PrefixConsistent(fs, n);
      DefineKeyNotFolded(base, fs[..n]);
    }
  }

  // ---------------------------------------------------------------------------
  // adder: defines

  /** Entry `e` is a well-formed define of `name`. */
  predicate Defines(e: string, name: string)
  {
    DefineEntry(e).Some? && DefineEntry(e).value.name == name
  }

  /** A name no entry defines keeps what the map held before. */
  lemma {:induction false} UndefinedNameKept(defs: seq<Define>, entries: seq<string>, name: string)
    requires forall j :: 0 <= j < |entries| ==> !Defines(entries[j], name)
    ensures Lookup(RecordAll(defs, entries), name) == Lookup(defs, name)
  {
    if entries != [] {
      var n := |entries| - 1;
      UndefinedNameKept(defs, entries[..n], name);
      var before := RecordAll(defs, entries[..n]);
      match DefineEntry(entries[n])
      case Some(d) => LookupPut(before, d.name, d.value, name);
      case None =>
    }
  }

  /** The last well-formed entry for a name decides its value. */
  lemma {:induction false} LastDefineWins(defs: seq<Define>, entries: seq<string>, i: int)
    requires 0 <= i < |entries| && DefineEntry(entries[i]).Some?
    requires forall j :: i < j < |entries| ==> !Defines(entries[j], DefineEntry(entries[i]).value.name)
    ensures Lookup(RecordAll(defs, entries), DefineEntry(entries[i]).value.name)
            == Some(DefineEntry(entries[i]).value.value)
  {
    var d := DefineEntry(entries[i]).value;
    var n := |entries| - 1;
    var before := RecordAll(defs, entries[..n]);
    if i == n {
      LookupPut(before, d.name, d.value, d.name);
    } else {
      LastDefineWins(defs, entries[..n], i);
      match DefineEntry(entries[n])
      case Some(e) => LookupPut(before, e.name, e.value, d.name);
      case None =>
    }
  }

  /** An entry without exactly one `=` is dropped. */
  lemma MalformedDefineDropped(defs: seq<Define>, entries: seq<string>, e: string)
    requires Count(e, '=') != 1
    ensures RecordAll(defs, entries + [e]) == RecordAll(defs, entries)
  {
    assert (entries + [e])[..|entries|] == entries;
  }

  /** Instances: a bare name, and a value holding a second `=`, are not
      defines. */
  lemma MalformedDefineExamples()
    ensures DefineEntry("DEBUG") == None
    ensures DefineEntry("A=B=C") == None
  {
    CountZero("DEBUG", '=');
    var s := "A=B=C";
    assert s[1..] == "=B=C" && s[1..][1..] == "B=C" && s[1..][1..][1..] == "=C";
    CountZero("C", '=');
    assert "=C"[1..] == "C";
    assert Count("=C", '=') == 1;
    assert Count("B=C", '=') == 1;
    assert Count(s, '=') == 2;
  }

  /** A name that is not yet recorded is added last. */
  lemma {:induction false} PutFresh(defs: seq<Define>, name: string, value: string)
    requires name !in Names(defs)
    ensures Put(defs, name, value) == defs + [Define(name, value)]
  {
    if defs != [] {
      assert defs[0].name == Names(defs)[0];
      assert Names(defs[1..]) == Names(defs)[1..];
      PutFresh(defs[1..], name, value);
      assert defs == [defs[0]] + defs[1..];
    }
  }

  /** `name=value` splits back into its name and value. */
  lemma DefineEntryOfExpanded(d: Define)
    requires '=' !in d.name && '=' !in d.value
    ensures DefineEntry(d.name + "=" + d.value) == Some(d)
  {
    SplitJoin([d.name, d.value], '=');
    assert Join([d.name, d.value], '=') == d.name + "=" + d.value;
  }

  /** Every expanded entry of a well-formed defines map reads back as the
      define it came from. */
  lemma ExpandReadsBack(defs: seq<Define>)
    requires WellFormedDefines(defs)
    ensures forall i :: 0 <= i < |defs| ==> DefineEntry(Expand(defs)[i]) == Some(defs[i])
  {
    forall i | 0 <= i < |defs| ensures DefineEntry(Expand(defs)[i]) == Some(defs[i]) {
      DefineEntryOfExpanded(defs[i]);
    }
  }

  /** The facts about the last define of a well-formed map that recording
      its expansion needs. */
  lemma ExpandedLast(defs: seq<Define>)
    requires WellFormedDefines(defs) && defs != []
    ensures WellFormedDefines(defs[..|defs| - 1])
    ensures Expand(defs)[..|defs| - 1] == Expand(defs[..|defs| - 1])
    ensures DefineEntry(Expand(defs)[|defs| - 1]) == Some(defs[|defs| - 1])
    ensures Put(defs[..|defs| - 1], defs[|defs| - 1].name, defs[|defs| - 1].value) == defs
  {
    var n := |defs| - 1;
    var init, last := defs[..n], defs[n];
    DefineEntryOfExpanded(last);
    assert last.name !in Names(init) by {
      forall j | 0 <= j < n ensures Names(init)[j] != last.name {
        assert Names(init)[j] == defs[j].name;
      }
    }
    PutFresh(init, last.name, last.value);
    assert init + [last] == defs;
  }

  /** Expanding a well-formed defines map and recording the result into an
      empty map gives back the same map, order included: expansion loses
      nothing. */
  lemma {:induction false} RecordExpanded(defs: seq<Define>)
    requires WellFormedDefines(defs)
    ensures RecordAll([], Expand(defs)) == defs
  {
    if defs != [] {
      ExpandedLast(defs);
      RecordExpanded(defs[..|defs| - 1]);
    }
  }

  // ---------------------------------------------------------------------------
  // adder: ordering of the fragments

  /** A key under which no fragment holds a boolean has none after the sort
      either. */
  lemma NoFlagsSorted(found: seq<Fragment>, k: string)
    requires NoFlags(found, k)
    ensures NoFlags(SortedFragments(found), k)
  {
    var r := SortedFragments(found);
    forall j | 0 <= j < |r| && k in r[j].options ensures !r[j].options[k].Bool? {
      StableSort.MembersOfPermutation(r, found, r[j]);
    }
  }

  /** Deleting the priorities keeps every fragment's options and its place. */
  lemma PrioritiesDeleted(fs: seq<Fragment>)
    ensures |WithoutPriority(fs)| == |fs|
    ensures forall i :: 0 <= i < |fs| ==>
      WithoutPriority(fs)[i].options == fs[i].options && WithoutPriority(fs)[i].priority.None?
  {
  }

  /** Among fragments of equal priority, the sort keeps the order in which
      they sit in the collected list (most recently collected first). */
  lemma EqualPrioritiesKeepOrder(found: seq<Fragment>, f: Fragment)
    ensures StableSort.Equivalents(SortedFragments(found), f, ByPriority)
            == StableSort.Equivalents(found, f, ByPriority)
  {
    ByPriorityIsTotalPreorder();
    StableSort.InsertionSortStable(found, f, ByPriority);
  }

  /** Sorting two fragments: they stay as they are unless the first has the
      higher priority. */
  lemma SortTwo(a: Fragment, b: Fragment)
    ensures SortedFragments([a, b]) == if Rank(a) <= Rank(b) then [a, b] else [b, a]
  {
    assert [a, b][..1] == [a];
    assert [a][..0] == [];
    assert StableSort.InsertionSort([a], ByPriority) == [a];
    assert [a, b][1] == b;
    assert SortedFragments([a, b]) == StableSort.Insert([a], b, ByPriority);
  }

  /** Fragments of pairwise distinct priorities. */
  predicate DistinctPriorities(fs: seq<Fragment>)
  {
    forall i, j :: 0 <= i < |fs| && 0 <= j < |fs| && i != j ==> Rank(fs[i]) != Rank(fs[j])
  }

  /** With pairwise distinct priorities the order in which packages were
      collected does not matter: any rearrangement of the same fragments is
      sorted into the same sequence. */
  lemma CollectionOrderIrrelevant(found1: seq<Fragment>, found2: seq<Fragment>)
    requires multiset(found1) == multiset(found2) && DistinctPriorities(found1)
    ensures SortedFragments(found1) == SortedFragments(found2)
  {
    ByPriorityIsTotalPreorder();
    forall i, j | 0 <= i < |found1| && 0 <= j < |found1|
        && ByPriority(found1[i], found1[j]) && ByPriority(found1[j], found1[i])
      ensures found1[i] == found1[j]
    {
      assert Rank(found1[i]) == Rank(found1[j]);
    }
    assert StableSort.AntisymmetricOn(found1, ByPriority);
    StableSort.InsertionSortIgnoresOrder(found1, found2, ByPriority);
  }

  // ---------------------------------------------------------------------------
  // adder: the object it leaves

  /** The final pass sorts every path list (lexicographically, keeping its
      entries) and leaves every other value as it was. */
  lemma SortPathKeysSorts(o: Options, k: string)
    ensures SortPathKeys(o).Keys == o.Keys
    ensures k in o && (k !in PathKeys || !o[k].Arr?) ==> SortPathKeys(o)[k] == o[k]
    ensures k in o && k in PathKeys && o[k].Arr? ==>
      && SortPathKeys(o)[k].Arr?
      && StableSort.Sorted(SortPathKeys(o)[k].items, LexLe)
      && multiset(SortPathKeys(o)[k].items) == multiset(o[k].items)
  {
    if k in o && k in PathKeys && o[k].Arr? {
      LexLeIsTotalOrder();
      StableSort.InsertionSortSorted(o[k].items, LexLe);
    }
  }

  /** What `adder` builds, step by step. */
  lemma MergedSteps(base: Options, found: seq<Fragment>, defs: seq<Define>)
    requires Consistent(base) && AllConsistent(found)
    ensures AllConsistent(SortedFragments(found))
    ensures Merged(base, found, defs) ==
            SortPathKeys(ExpandDefines(FoldAll(base, SortedFragments(found)), MergedDefines(found, defs)))
  {
    SortedFragmentsConsistent(found);
  }

  lemma DefineIsNoPathKey()
    ensures "define" !in PathKeys
  {
  }

  /** The final pass leaves keys other than the path keys alone. */
  lemma SortPathKeysOtherKey(o: Options, k: string)
    requires k !in PathKeys
    ensures Get(SortPathKeys(o), k) == Get(o, k)
  {
  }

  /** Building the `define` list touches no other key. */
  lemma ExpandDefinesOtherKey(o: Options, defs: seq<Define>, k: string)
    requires k != "define"
    ensures Get(ExpandDefines(o, defs), k) == Get(o, k)
  {
  }

  /** Keys that are neither path keys nor `define` are exactly what the
      reduce left. */
  lemma MergedOtherKeys(base: Options, found: seq<Fragment>, defs: seq<Define>, k: string)
    requires Consistent(base) && AllConsistent(found)
    requires k !in PathKeys && k != "define"
    ensures AllConsistent(SortedFragments(found))
    ensures Get(Merged(base, found, defs), k) == Get(FoldAll(base, SortedFragments(found)), k)
  {
    MergedSteps(base, found, defs);
    var folded := FoldAll(base, SortedFragments(found));
    var o := ExpandDefines(folded, MergedDefines(found, defs));
    ExpandDefinesOtherKey(folded, MergedDefines(found, defs), k);
    SortPathKeysOtherKey(o, k);
  }

  /** Every path list of the merged object is sorted. */
  lemma MergedPathListsSorted(base: Options, found: seq<Fragment>, defs: seq<Define>, k: string)
    requires Consistent(base) && AllConsistent(found)
    requires k in PathKeys && k in Merged(base, found, defs) && Merged(base, found, defs)[k].Arr?
    ensures StableSort.Sorted(Merged(base, found, defs)[k].items, LexLe)
  {
    var sorted := SortedFragments(found);
    SortedFragmentsConsistent(found);
    var o := ExpandDefines(FoldAll(base, sorted), RecordAll(defs, DefineEntries(sorted)));
    SortPathKeysSorts(o, k);
  }

  /** The reduce combines the `externs` entries in another order than the
      other lists, but with the same entries. */
  lemma ExternsFoldedEntries(base: Options, fs: seq<Fragment>)
    requires Consistent(base) && AllConsistent(fs) && NoFlags(fs, "externs")
    ensures multiset(Entries(FoldAll(base, fs), "externs"))
            == multiset(Entries(base, "externs") + Contributions(fs, "externs"))
  {
    ExternsPrepended(base, fs);
    PrependedSameEntries(fs, "externs");
  }

  /** The entries of a path key after the final pass are its sorted entries. */
  lemma SortedPathEntries(o: Options, k: string)
    requires k in PathKeys
    requires k in o ==> o[k].Arr? || o[k] == Bool(false)
    ensures Entries(SortPathKeys(o), k) == StableSort.InsertionSort(Entries(o, k), LexLe)
  {
  }

  /** Sorting strings forgets their order. */
  lemma LexSortIgnoresOrder(a: seq<string>, b: seq<string>)
    requires multiset(a) == multiset(b)
    ensures StableSort.InsertionSort(a, LexLe) == StableSort.InsertionSort(b, LexLe)
  {
    LexLeIsTotalOrder();
    assert StableSort.AntisymmetricOn(a, LexLe);
    StableSort.InsertionSortIgnoresOrder(a, b, LexLe);
  }

  /** Although `externs` are put in front of the earlier ones while the other
      lists are appended to, the difference does not survive the final sort:
      the merged `externs` are the sorted base entries and contributions. */
  lemma ExternsAsIfAppended(base: Options, found: seq<Fragment>, defs: seq<Define>)
    requires Consistent(base) && AllConsistent(found) && NoFlags(found, "externs")
    ensures Entries(Merged(base, found, defs), "externs") ==
      StableSort.InsertionSort(Entries(base, "externs") + Contributions(SortedFragments(found), "externs"), LexLe)
  {
    var sorted := SortedFragments(found);
    SortedFragmentsConsistent(found);
    var folded := FoldAll(base, sorted);
    var o := ExpandDefines(folded, RecordAll(defs, DefineEntries(sorted)));
    assert multiset(Entries(folded, "externs"))
           == multiset(Entries(base, "externs") + Contributions(sorted, "externs")) by {
      NoFlagsSorted(found, "externs");
      ExternsFoldedEntries(base, sorted);
    }
    ExpandDefinesOtherKey(folded, RecordAll(defs, DefineEntries(sorted)), "externs");
    assert Entries(o, "externs") == Entries(folded, "externs");
    SortedPathEntries(o, "externs");
    LexSortIgnoresOrder(Entries(folded, "externs"), Entries(base, "externs") + Contributions(sorted, "externs"));
  }

  /** The `define` list `adder` leaves: the base object's own entries, kept
      by the reduce, then one `name=value` entry per recorded define, in
      recording order. */
  lemma MergedDefineList(base: Options, found: seq<Fragment>, defs: seq<Define>)
    requires Consistent(base) && AllConsistent(found) && NoFlags(found, "define")
    requires MergedDefines(found, defs) != []
    ensures Get(Merged(base, found, defs), "define") ==
            Some(Arr(DefineItems(base) + Expand(MergedDefines(found, defs))))
  {
    MergedSteps(base, found, defs);
    var sorted := SortedFragments(found);
    var folded := FoldAll(base, sorted);
    var o := ExpandDefines(folded, MergedDefines(found, defs));
    assert DefineItems(folded) == DefineItems(base) by {
      NoFlagsSorted(found, "define");
      DefineKeyNotFolded(base, sorted);
    }
    DefineIsNoPathKey();
    SortPathKeysOtherKey(o, "define");
  }

  /** Each entry of that list reads back as the define it was made from. */
  lemma MergedDefinesReadBack(found: seq<Fragment>, defs: seq<Define>)
    requires WellFormedDefines(defs)
    ensures WellFormedDefines(MergedDefines(found, defs))
    ensures forall i :: 0 <= i < |MergedDefines(found, defs)| ==>
            DefineEntry(Expand(MergedDefines(found, defs))[i]) == Some(MergedDefines(found, defs)[i])
  {
    RecordAllWellFormed(defs, DefineEntries(SortedFragments(found)));
    ExpandReadsBack(MergedDefines(found, defs));
  }

  /** After `clear`, `adder` still sorts the base object's path lists and
      changes nothing else. */
  lemma AdderAfterClear(base: Options)
    requires Consistent(base)
    ensures Merged(base, [], []) == SortPathKeys(base)
    ensures MergedDefines([], []) == []
  {
  }

  lemma PairConsistent(a: Fragment, b: Fragment)
    requires Consistent(a.options) && Consistent(b.options)
    ensures AllConsistent([a, b]) && AllConsistent([b, a])
  {
  }

  /** When the sort puts `winner` after `first`, a single-valued key that
      `winner` sets comes from `winner`. */
  lemma LastOfTwoWins(base: Options, found: seq<Fragment>, defs: seq<Define>,
                      first: Fragment, winner: Fragment, k: string)
    requires Consistent(base) && AllConsistent(found)
    requires SortedFragments(found) == [first, winner]
    requires k in winner.options && k !in MultiValueKeys && k !in PathKeys
    ensures Get(Merged(base, found, defs), k) == Some(winner.options[k])
  {
    MergedOtherKeys(base, found, defs, k);
    LastWriterWins(base, [first, winner], k, 1);
  }

  /** For a single-valued key set by two packages of equal priority, the one
      collected earlier (later in the collected list) wins. */
  lemma EqualPriorityEarlierCollectedWins(base: Options, newer: Fragment, older: Fragment,
                                          defs: seq<Define>, k: string)
    requires Consistent(base) && Consistent(newer.options) && Consistent(older.options)
    requires Rank(newer) == Rank(older)
    requires k in older.options && k !in MultiValueKeys && k !in PathKeys
    ensures Get(Merged(base, [newer, older], defs), k) == Some(older.options[k])
  {
    SortTwo(newer, older);
    LastOfTwoWins(base, [newer, older], defs, newer, older, k);
  }

  /** For a single-valued key set by two packages of different priority, the
      higher priority wins whichever was collected first. */
  lemma HigherPriorityWins(base: Options, low: Fragment, high: Fragment, defs: seq<Define>, k: string)
    requires Consistent(base) && Consistent(low.options) && Consistent(high.options)
    requires Rank(low) < Rank(high)
    requires k in high.options && k !in MultiValueKeys && k !in PathKeys
    ensures AllConsistent([low, high]) && AllConsistent([high, low])
    ensures Get(Merged(base, [low, high], defs), k) == Some(high.options[k])
    ensures Get(Merged(base, [high, low], defs), k) == Some(high.options[k])
  {
    PairConsistent(low, high);
    SortTwo(low, high);
    LastOfTwoWins(base, [low, high], defs, low, high, k);
    SortTwo(high, low);
    LastOfTwoWins(base, [high, low], defs, low, high, k);
  }
}
