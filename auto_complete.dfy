/**
 * The completion facade, `AutoCompleteUtil`. Its one piece of state is the
 * static field `cachedClassNames`, which every use of the class-name index
 * overwrites and nothing else reads; the collaborators it queries (workspace,
 * system classpath, parse state) are passed in.
 */
module AutoComplete {
  import opened Wrappers
  import opened Strings
  import opened Streams
  import opened Environment
  import opened ClassNameIndex
  import opened Descriptors

  class AutoCompleteUtil {
    /** The last index built; None (Java's `null`) until the index is first used. */
    var cachedClassNames: Option<seq<string>>

    constructor ()
      ensures cachedClassNames == None
    {
      cachedClassNames := None;
    }

    /**
     * `classNames`: with a workspace, the workspace's names (in whatever order its
     * set yields them) and the system's, deduplicated and sorted; without one, the
     * system list itself. Either way the result is stored in the cache.
     */
    method ClassNames(runtime: Runtime, workspace: Option<Workspace>) returns (names: seq<string>)
      modifies this
      ensures cachedClassNames == Some(names)
      ensures IsClassIndex(names, runtime.systemClassNames, workspace)
    {
      var systemClassNames := runtime.systemClassNames;
      if workspace.Some? {
        var inputClasses := ElementsOf(workspace.value.classNames);
        cachedClassNames := Some(MergeNames(inputClasses, systemClassNames));
      } else {
        cachedClassNames := Some(systemClassNames);
      }
      names := cachedClassNames.value;
    }

    /**
     * `internalName`: an empty `part` returns at once and leaves the cache alone;
     * otherwise the index is rebuilt and filtered on the trimmed `part`.
     */
    method InternalName(part: string, runtime: Runtime, workspace: Option<Workspace>) returns (r: seq<string>)
      modifies this
      ensures part == [] ==> r == [] && cachedClassNames == old(cachedClassNames)
      ensures part != [] ==> && cachedClassNames.Some?
                             && IsClassIndex(cachedClassNames.value, runtime.systemClassNames, workspace)
                             && r == InternalNameCompletions(part, cachedClassNames.value)
    {
      var key := Trim(part);
      if part == [] {
        return [];
      }
      var names := ClassNames(runtime, workspace);
      r := Filter(names, n => StartsWith(n, key) && n != key);
    }

    /**
     * `descriptorName`: the trimmed input is split by the character loop; a
     * rejected input returns at once and leaves the cache alone, an accepted one
     * rebuilds the index and completes against it.
     */
    method DescriptorName(part: string, runtime: Runtime, workspace: Option<Workspace>) returns (r: seq<string>)
      modifies this
      ensures Token(part).None? ==> r == [] && cachedClassNames == old(cachedClassNames)
      ensures Token(part).Some? ==> && cachedClassNames.Some?
                                    && IsClassIndex(cachedClassNames.value, runtime.systemClassNames, workspace)
                                    && r == DescriptorCompletions(part, cachedClassNames.value)
    {
      var trimmed := Trim(part);
      if trimmed == [] {
        return [];
      }
      var scan := SplitDescriptor(trimmed);
      if scan.Closed? {
        return [];
      }
      var prefix, key := scan.prefix, scan.key;
      if prefix == [] || 'L' !in prefix || key == [] {
        return [];
      }
      var names := ClassNames(runtime, workspace);
      r := Rewrap(prefix, NamesStartingWith(names, key));
    }
  }
}
