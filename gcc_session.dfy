/** The run state of `plugins/gcc/options.js` and its three exported
    operations: `resolver` collects one package's fragment, `adder` merges all
    collected fragments into the caller's object, `clear` resets the run. */
module GccSession {
  import opened Wrappers
  import opened JsText
  import opened GccOptions
  import StableSort

  /** The caller-owned options object that `adder` merges into in place. */
  class Config {
    var entries: Options

    constructor (entries: Options)
      ensures this.entries == entries
    {
      this.entries := entries;
    }
  }

  /** The module-level state: `basePackage`, `optionsFound`, `definesFound`
      (an insertion-ordered map). */
  class Session {
    var basePackage: Option<Package>
    var optionsFound: seq<Fragment>
    var definesFound: seq<Define>

    ghost predicate Valid()
      reads this
    {
      AllConsistent(optionsFound) && WellFormedDefines(definesFound)
    }

    /** The state when the module is first loaded. */
    constructor ()
      ensures Valid()
      ensures basePackage == None && optionsFound == [] && definesFound == []
    {
      basePackage := None;
      optionsFound := [];
      definesFound := [];
    }

    /** `resolver(pack, projectDir, depth)`: the first package seen becomes
        `basePackage`; a package with a `build.gcc` block has its path keys
        resolved, gets a priority and is put at the front of `optionsFound`. */
    method Resolver(pack: Package, projectDir: string, depth: int, env: Collaborators)
      requires Valid()
      requires pack.gcc.Some? ==> Resolvable(pack.gcc.value)
      modifies this
      ensures Valid()
      ensures basePackage == if old(basePackage).Some? then old(basePackage) else Some(pack)
      ensures definesFound == old(definesFound)
      ensures pack.gcc.None? ==> optionsFound == old(optionsFound)
      ensures pack.gcc.Some? ==>
        optionsFound == [Fragment(ResolvedOptions(pack.gcc.value, projectDir, env) - {"priority"},
                                  Some(env.packagePriority(pack, depth, basePackage.value)))]
                        + old(optionsFound)
    {
      if basePackage.None? {
        basePackage := Some(pack);
      }
      if pack.gcc.Some? {
        var options := pack.gcc.value;
        ghost var original := options;
        var keys := options.Keys;
        while keys != {}
          invariant keys <= original.Keys && options.Keys == original.Keys
          invariant forall k :: k in options ==>
            options[k] == if k in PathKeys && k !in keys then ResolvedValue(k, original[k], projectDir, env)
                          else original[k]
          decreases keys
        {
          var key :| key in keys;
          if key in PathKeys {
            var value := options[key];
            var list := if value.Arr? then value.items else [value.s];
            options := options[key := Arr(MapPaths(list, projectDir, env))];
          }
          keys := keys - {key};
        }
        assert options == ResolvedOptions(original, projectDir, env);
        var priority := env.packagePriority(pack, depth, basePackage.value);
        optionsFound := [Fragment(options - {"priority"}, Some(priority))] + optionsFound;
      }
    }

    /** The `forEach` over one fragment's `define` list. */
    method RecordDefines(entries: seq<string>)
      requires WellFormedDefines(definesFound)
      modifies this`definesFound
      ensures definesFound == RecordAll(old(definesFound), entries)
      ensures WellFormedDefines(definesFound)
    {
      var j := 0;
      while j < |entries|
        invariant 0 <= j <= |entries|
        invariant definesFound == RecordAll(old(definesFound), entries[..j])
        invariant WellFormedDefines(definesFound)
      {
        var parts := Split(entries[j], '=');
        if |parts| == 2 {
          PutWellFormed(definesFound, parts[0], parts[1]);
          definesFound := Put(definesFound, parts[0], parts[1]);
        }
        assert entries[..j + 1][..j] == entries[..j];
        j := j + 1;
      }
      assert entries[..|entries|] == entries;
    }

    /** One key of one fragment, by the key's merge policy: overwrite, record
        the defines, or concatenate (incoming values first for `externs`). */
    method MergeOneKey(target: Config, key: string, value: Value)
      requires Consistent(target.entries) && ValueFits(key, value) && WellFormedDefines(definesFound)
      modifies this`definesFound, target
      ensures target.entries == FoldKey(old(target.entries), key, value)
      ensures definesFound ==
        if key == "define" && value.Arr? then RecordAll(old(definesFound), value.items) else old(definesFound)
      ensures WellFormedDefines(definesFound)
    {
      if value.Bool? || key !in MultiValueKeys {
        target.entries := target.entries[key := value];
      } else if key == "define" {
        RecordDefines(value.items);
      } else {
        var incoming := ToArray(value);
        if key in target.entries && Truthy(target.entries[key]) {
          var current := ToArray(target.entries[key]);
          if key == "externs" {
            target.entries := target.entries[key := Arr(incoming.items + current.items)];
          } else {
            target.entries := target.entries[key := Arr(current.items + incoming.items)];
          }
        } else {
          target.entries := target.entries[key := incoming];
        }
      }
    }

    /** The body of the reduce callback for one fragment: `for (var key in
        curr)`, in whatever order the keys are enumerated. */
    method FoldFragment(target: Config, frag: Options)
      requires Consistent(target.entries) && Consistent(frag) && WellFormedDefines(definesFound)
      modifies this`definesFound, target
      ensures target.entries == FoldOptions(old(target.entries), frag)
      ensures definesFound == RecordAll(old(definesFound), DefinesOf(frag))
      ensures WellFormedDefines(definesFound)
    {
      ghost var acc := target.entries;
      var keys := frag.Keys;
      assert frag - keys == map[];
      while keys != {}
        invariant keys <= frag.Keys
        invariant target.entries == FoldOptions(acc, frag - keys)
        invariant definesFound == RecordAll(old(definesFound), DefinesOf(frag - keys))
        invariant WellFormedDefines(definesFound)
        decreases keys
      {
        var key :| key in keys;
        FoldFragmentStep(acc, frag, keys, key);
        MergeOneKey(target, key, frag[key]);
        keys := keys - {key};
      }
      assert frag - keys == frag;
    }

    /** The loop over `definesFound` that pushes `name=value` onto `define`. */
    method ExpandDefinesInto(target: Config)
      requires Consistent(target.entries)
      modifies target
      ensures target.entries == ExpandDefines(old(target.entries), definesFound)
      ensures Consistent(target.entries)
    {
      ghost var o := target.entries;
      var j := 0;
      while j < |definesFound|
        invariant 0 <= j <= |definesFound|
        invariant target.entries == ExpandDefines(o, definesFound[..j])
      {
        ExpandDefinesStep(o, definesFound, j);
        ghost var cur := target.entries;
        if !("define" in target.entries && Truthy(target.entries["define"])) {
          target.entries := target.entries["define" := Arr([])];
        }
        assert target.entries["define"].items == DefineItems(cur);
        var d := definesFound[j];
        target.entries := target.entries["define" := Arr(target.entries["define"].items + [d.name + "=" + d.value])];
        assert target.entries == cur["define" := Arr(DefineItems(cur) + [d.name + "=" + d.value])];
        j := j + 1;
      }
      assert definesFound[..|definesFound|] == definesFound;
    }

    /** `pathKeys.forEach(key => { if (options[key]) options[key].sort(); })`. */
    method SortPathLists(target: Config)
      requires Consistent(target.entries)
      modifies target
      ensures target.entries == SortPathKeys(old(target.entries))
    {
      ghost var o := target.entries;
      var i := 0;
      while i < |PathKeys|
        invariant 0 <= i <= |PathKeys|
        invariant target.entries == SortKeys(o, PathKeys[..i])
      {
        SortKeysNext(o, i);
        var key := PathKeys[i];
        if key in target.entries && Truthy(target.entries[key]) {
          var list := StableSort.Sort(target.entries[key].items, LexLe);
          target.entries := target.entries[key := Arr(list)];
        }
        i := i + 1;
      }
      assert PathKeys[..|PathKeys|] == PathKeys;
    }

    /** The `reduce` over the sorted fragments, deleting each one's priority. */
    method FoldFragments(target: Config)
      requires Valid() && Consistent(target.entries)
      modifies this`optionsFound, this`definesFound, target
      ensures Valid()
      ensures optionsFound == WithoutPriority(old(optionsFound))
      ensures target.entries == FoldAll(old(target.entries), old(optionsFound))
      ensures definesFound == RecordAll(old(definesFound), DefineEntries(old(optionsFound)))
    {
      ghost var base, defs0, fs := target.entries, definesFound, optionsFound;
      var i := 0;
      assert fs[..0] == [] && fs[0..] == fs;
      while i < |optionsFound|
        invariant 0 <= i <= |fs| && AllConsistent(fs)
        invariant optionsFound == WithoutPriority(fs[..i]) + fs[i..]
        invariant target.entries == FoldAll(base, fs[..i])
        invariant definesFound == RecordAll(defs0, DefineEntries(fs[..i]))
        invariant WellFormedDefines(definesFound)
      {
        var curr := optionsFound[i];
        FoldAllStep(base, fs, i);
        WithoutPriorityStep(fs, i);
        optionsFound := optionsFound[i := curr.(priority := None)];
        FoldFragment(target, curr.options);
        RecordAllAppend(defs0, DefineEntries(fs[..i]), DefinesOf(fs[i].options));
        i := i + 1;
      }
      assert fs[..|fs|] == fs && fs[|fs|..] == [];
      RecordAllWellFormed(defs0, DefineEntries(fs));
    }

    /** `adder(pack, options)`: sorts the fragments by priority, folds them
        into `target` (deleting each one's priority), appends the recorded
        defines and sorts the path lists. The `pack` argument, which
        `adder` never reads, is omitted. */
    method Adder(target: Config)
      requires Valid() && Consistent(target.entries)
      requires forall i :: 0 <= i < |optionsFound| ==> optionsFound[i].priority.Some?
      modifies this, target
      ensures Valid()
      ensures basePackage == old(basePackage)
      ensures optionsFound == WithoutPriority(SortedFragments(old(optionsFound)))
      ensures definesFound == MergedDefines(old(optionsFound), old(definesFound))
      ensures target.entries == Merged(old(target.entries), old(optionsFound), old(definesFound))
    {
      SortedFragmentsConsistent(optionsFound);
      optionsFound := StableSort.Sort(optionsFound, ByPriority);
      FoldFragments(target);
      ExpandDefinesInto(target);
      SortPathLists(target);
    }

    /** `clear()`: forgets the fragments and the defines, not `basePackage`. */
    method Clear()
      modifies this
      ensures Valid()
      ensures optionsFound == [] && definesFound == []
      ensures basePackage == old(basePackage)
    {
      definesFound := [];
      optionsFound := [];
    }
  }
}
