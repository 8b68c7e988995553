/**
 The table from omegaUp language tags to source-file extensions, the exact
 lookup the suspicious-activity check performs on it, and the
 last-prefix-match-wins resolution used when sources are saved.
 */
module Languages {
  import opened Outcomes
  import opened Strings

  /** `omegaup_lang_extension`, in the dictionary's insertion order. */
  const LangExtension: seq<(string, string)> := [
    ("c11-clang", ".c"),
    ("c11-gcc", ".c"),
    ("cpp11-clang", ".cpp"),
    ("cpp11-gcc", ".cpp"),
    ("cpp17-clang", ".cpp"),
    ("cpp17-gcc", ".cpp"),
    ("cpp20-clang", ".cpp"),
    ("cpp20-gcc", ".cpp"),
    ("cs", ".cs"),
    ("java", ".java"),
    ("kj", ".java"),
    ("kp", ".pascal"),
    ("py2", ".py"),
    ("py3", ".py")
  ]

  /** The extension used for a tag no table key is a prefix of. */
  const Fallback: string := ".txt"

  /** `tag` is a key of the table. */
  predicate IsKey(tag: string) {
    exists i | 0 <= i < |LangExtension| :: LangExtension[i].0 == tag
  }

  /** The extension in the table's rows `i..`, looked up by exact key. */
  function LookupFrom(tag: string, i: nat): (r: Option<string>)
    requires i <= |LangExtension|
    ensures r.Some? ==> exists j | i <= j < |LangExtension| :: LangExtension[j] == (tag, r.value)
    ensures r.None? ==> forall j | i <= j < |LangExtension| :: LangExtension[j].0 != tag
    decreases |LangExtension| - i
  {
    if i == |LangExtension| then None
    else if LangExtension[i].0 == tag then Some(LangExtension[i].1)
    else LookupFrom(tag, i + 1)
  }

  /** `omegaup_lang_extension[tag]`: a `KeyError` unless the tag is
      literally a key. */
  function Lookup(tag: string): (r: Result<string>)
    ensures r.Ok? <==> IsKey(tag)
    ensures r.Ok? ==> exists j | 0 <= j < |LangExtension| :: LangExtension[j] == (tag, r.value)
    ensures r.Err? ==> r.error == KeyError(tag)
  {
    match LookupFrom(tag, 0)
    case Some(ext) => Ok(ext)
    case None => Err(KeyError(tag))
  }

  /** No key of the table is a prefix of another key: any two keys differ
      in one of their first seven characters. */
  lemma KeysArePrefixFree()
    ensures forall i, j | 0 <= i < |LangExtension| && 0 <= j < |LangExtension| && i != j ::
              !StartsWith(LangExtension[j].0, LangExtension[i].0)
  {
    forall i, j | 0 <= i < |LangExtension| && 0 <= j < |LangExtension| && i != j
      ensures !StartsWith(LangExtension[j].0, LangExtension[i].0)
    {
      var a, b := LangExtension[i].0, LangExtension[j].0;
      assert || |a| > |b|
             || a[0] != b[0] || a[1] != b[1]
             || (|a| > 2 && |b| > 2 && a[2] != b[2])
             || (|a| > 3 && |b| > 3 && a[3] != b[3])
             || (|a| > 4 && |b| > 4 && a[4] != b[4])
             || (|a| > 6 && |b| > 6 && a[6] != b[6]);
      DifferenceBlocksPrefix(b, a);
    }
  }

  /** Two prefixes of one string: the shorter is a prefix of the longer. */
  lemma PrefixesNest(tag: string, a: string, b: string)
    requires StartsWith(tag, a) && StartsWith(tag, b) && |a| <= |b|
    ensures StartsWith(b, a)
  {
    assert b[..|a|] == tag[..|b|][..|a|] == tag[..|a|];
  }

  /** At most one key of the table is a prefix of any tag. */
  lemma AtMostOneKeyPrefixes(tag: string, i: nat, j: nat)
    requires i < |LangExtension| && j < |LangExtension|
    requires StartsWith(tag, LangExtension[i].0) && StartsWith(tag, LangExtension[j].0)
    ensures i == j
  {
    KeysArePrefixFree();
    if |LangExtension[i].0| <= |LangExtension[j].0| {
      PrefixesNest(tag, LangExtension[i].0, LangExtension[j].0);
    } else {
      PrefixesNest(tag, LangExtension[j].0, LangExtension[i].0);
    }
  }

  /** The extension held by the loop of `_download_runs_for_problem` after
      visiting the first `n` rows of the table: the value of the last
      visited row whose key the tag starts with. */
  function ResolveUpTo(tag: string, n: nat): (r: Option<string>)
    requires n <= |LangExtension|
    ensures r.Some? ==> exists i | 0 <= i < n :: StartsWith(tag, LangExtension[i].0) && r.value == LangExtension[i].1
    ensures r.None? <==> forall i | 0 <= i < n :: !StartsWith(tag, LangExtension[i].0)
  {
    if n == 0 then None
    else if StartsWith(tag, LangExtension[n - 1].0) then Some(LangExtension[n - 1].1)
    else ResolveUpTo(tag, n - 1)
  }

  /** The extension a run's source is saved with: the value of the key the
      tag starts with, or the fallback when no key matches. */
  function ResolveExtension(tag: string): (ext: string)
    ensures forall i | 0 <= i < |LangExtension| && StartsWith(tag, LangExtension[i].0) ::
              ext == LangExtension[i].1
    ensures (forall i | 0 <= i < |LangExtension| :: !StartsWith(tag, LangExtension[i].0)) ==> ext == Fallback
    ensures ext == Fallback || exists i | 0 <= i < |LangExtension| :: ext == LangExtension[i].1
  {
    var found := ResolveUpTo(tag, |LangExtension|);
    forall i | 0 <= i < |LangExtension| && StartsWith(tag, LangExtension[i].0)
      ensures found == Some(LangExtension[i].1)
    {
      var j :| 0 <= j < |LangExtension| && StartsWith(tag, LangExtension[j].0) && found.value == LangExtension[j].1;
      AtMostOneKeyPrefixes(tag, i, j);
    }
    match found
    case Some(ext) => ext
    case None => Fallback
  }

  /** A tag that is literally a key resolves to that key's extension, so the
      two lookups agree wherever the exact one succeeds. */
  lemma KeysResolveToTheirExtension(tag: string)
    requires Lookup(tag).Ok?
    ensures ResolveExtension(tag) == Lookup(tag).value
  {
    var j :| 0 <= j < |LangExtension| && LangExtension[j] == (tag, Lookup(tag).value);
    assert StartsWith(tag, LangExtension[j].0);
  }

  /** A tag that extends a key resolves to that key's extension when sources
      are saved, yet the exact lookup of the suspicious-activity check raises
      `KeyError` on it. */
  lemma ExtendedTagsOnlyResolve(tag: string, i: nat)
    requires i < |LangExtension|
    requires StartsWith(tag, LangExtension[i].0) && |tag| > |LangExtension[i].0|
    ensures ResolveExtension(tag) == LangExtension[i].1
    ensures Lookup(tag) == Err(KeyError(tag))
  {
    if IsKey(tag) {
      var j :| 0 <= j < |LangExtension| && LangExtension[j].0 == tag;
      assert StartsWith(tag, LangExtension[j].0);
      AtMostOneKeyPrefixes(tag, i, j);
    }
  }
}
