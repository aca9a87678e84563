/**
 * Versioned interface names (extractor_sdvsidl.py:120-203): names whose
 * stem ends in a version suffix and that collide with another name once
 * the suffix is dropped, and the renaming that keeps the generated file
 * names apart.
 */
module Versions {
  import opened Text
  import opened Utils
  import opened Index
  import opened Extractor

  /** `Path(p).stem`: the last `/`-component without its last suffix; a leading dot or a trailing one is no suffix. */
  function Stem(path: string): (r: string)
    ensures '/' !in r
  {
    var name := LastSegment(path, '/');
    var ext := LastSegment(name, '.');
    if |ext| < |name| && ext != [] && |name| - |ext| - 1 > 0 then name[..|name| - |ext| - 1] else name
  }

  /** The stem ends in `V1`..`V9`, either case (`(?i)V[1-9]$`). */
  predicate IsVersioned(stem: string)
  {
    |stem| >= 2 && (stem[|stem| - 2] == 'V' || stem[|stem| - 2] == 'v') && '1' <= stem[|stem| - 1] <= '9'
  }

  /** The stem without its version suffix. */
  function Unversioned(stem: string): (r: string)
    ensures IsVersioned(stem) ==> r + stem[|stem| - 2..] == stem
    ensures !IsVersioned(stem) ==> r == stem
  {
    if IsVersioned(stem) then stem[..|stem| - 2] else stem
  }

  /** The index key of an interface: its unversioned stem, with its topic hint when hints are kept apart. */
  function Key(x: Interface, sameTopic: bool): (string, string)
  {
    (if sameTopic then x.topicHint else "", Unversioned(Stem(x.rosFilename)))
  }

  /** A versioned entry that shares its key with an entry of another name. */
  predicate Qualifies(xs: seq<Interface>, j: nat, sameTopic: bool)
    requires j < |xs|
  {
    IsVersioned(Stem(xs[j].rosFilename))
    && exists k :: 0 <= k < |xs| && Key(xs[k], sameTopic) == Key(xs[j], sameTopic) && xs[k].rosFilename != xs[j].rosFilename
  }

  /** The key of every entry, in order. */
  function Keys(xs: seq<Interface>, sameTopic: bool): (r: seq<(string, string)>)
    ensures |r| == |xs| && forall k :: 0 <= k < |xs| ==> r[k] == Key(xs[k], sameTopic)
  {
    seq(|xs|, k requires 0 <= k < |xs| => Key(xs[k], sameTopic))
  }

  /** The file name of every entry, in order. */
  function Names(xs: seq<Interface>): (r: seq<string>)
    ensures |r| == |xs| && forall k :: 0 <= k < |xs| ==> r[k] == xs[k].rosFilename
  {
    seq(|xs|, k requires 0 <= k < |xs| => xs[k].rosFilename)
  }

  /** Whether each entry's stem carries a version suffix, in order. */
  function VersionMarks(xs: seq<Interface>): (r: seq<bool>)
    ensures |r| == |xs| && forall j :: 0 <= j < |xs| ==> r[j] == IsVersioned(Stem(xs[j].rosFilename))
  {
    seq(|xs|, j requires 0 <= j < |xs| => IsVersioned(Stem(xs[j].rosFilename)))
  }

  /** The generic test on the precomputed keys, names and marks is the qualification of the entry. */
  lemma QualifiesMeans(xs: seq<Interface>, j: nat, sameTopic: bool)
    requires j < |xs|
    ensures RepeatedAt(Keys(xs, sameTopic), Names(xs), VersionMarks(xs), j) == Qualifies(xs, j, sameTopic)
  {
    var keys, names := Keys(xs, sameTopic), Names(xs);
    if RepeatedAt(keys, names, VersionMarks(xs), j) {
      var k :| 0 <= k < |keys| && keys[k] == keys[j] && names[k] != names[j];
      assert Key(xs[k], sameTopic) == Key(xs[j], sameTopic) && xs[k].rosFilename != xs[j].rosFilename;
    }
    if Qualifies(xs, j, sameTopic) {
      var k :| 0 <= k < |xs| && Key(xs[k], sameTopic) == Key(xs[j], sameTopic) && xs[k].rosFilename != xs[j].rosFilename;
      assert keys[k] == keys[j] && names[k] != names[j];
    }
  }

  /** What `find_versioned_matches` returns: the qualifying names, each once, in order of first occurrence. */
  function VersionedMatches(xs: seq<Interface>, sameTopic: bool): seq<string>
  {
    Dedup(Selected(RepeatedFlags(Keys(xs, sameTopic), Names(xs), VersionMarks(xs)), Names(xs), |xs|))
  }

  /**
   * The two loops of the source: the index of names by key, then each
   * qualifying name once; the stems, marks and keys are computed per
   * entry beforehand.
   */
  method FindVersionedMatches(xs: seq<Interface>, sameTopic: bool) returns (results: seq<string>)
    ensures results == VersionedMatches(xs, sameTopic)
  {
    results := SelectRepeated(Keys(xs, sameTopic), Names(xs), VersionMarks(xs));
  }

  /**
   * The result lists exactly the names of the qualifying entries, each
   * once: versioned names sharing their unversioned stem (and hint when
   * hints are kept apart) with an entry of another name.
   */
  lemma VersionedMatchesCharacterized(xs: seq<Interface>, sameTopic: bool, v: string)
    ensures NoDuplicates(VersionedMatches(xs, sameTopic))
    ensures v in VersionedMatches(xs, sameTopic)
            <==> exists j :: 0 <= j < |xs| && Qualifies(xs, j, sameTopic) && xs[j].rosFilename == v
  {
    var flags := RepeatedFlags(Keys(xs, sameTopic), Names(xs), VersionMarks(xs));
    DedupProperties(Selected(flags, Names(xs), |xs|));
    SelectedMembers(flags, Names(xs), |xs|, v);
    forall j | 0 <= j < |xs|
      ensures flags[j] == Qualifies(xs, j, sameTopic)
    {
      QualifiesMeans(xs, j, sameTopic);
    }
  }

  // ---------------------------------------------------------------------------
  // Renaming by topic hint (extractor_sdvsidl.py:165-203)

  /** The topic hint of every entry, in order. */
  function Hints(xs: seq<Interface>): (r: seq<string>)
    ensures |r| == |xs| && forall k :: 0 <= k < |xs| ==> r[k] == xs[k].topicHint
  {
    seq(|xs|, k requires 0 <= k < |xs| => xs[k].topicHint)
  }

  /** `hint_map`: the set of topic hints under which each file name occurs. */
  function HintMap(xs: seq<Interface>): map<string, set<string>>
  {
    SetIndexUpTo(Names(xs), Hints(xs), |xs|)
  }

  /**
   * The new file name of an entry: prefixed with the acronym of its hint's
   * first dotted component when its name occurs under several hints, and
   * suffixed with `XX` instead when it is a versioned match.
   */
  function RenamedFile(x: Interface, hints: set<string>, versioned: seq<string>): string
  {
    if x.rosFilename in versioned then x.rosFilename + "XX"
    else if |hints| > 1 then HintToAcronym(Before(x.topicHint, '.')) + x.rosFilename
    else x.rosFilename
  }

  /** An entry with its file name renamed, given the hint map and the versioned matches. */
  function RenamedWith(x: Interface, hintMap: map<string, set<string>>, versioned: seq<string>): Interface
  {
    x.(rosFilename := RenamedFile(x, SetIndexGet(hintMap, x.rosFilename), versioned))
  }

  /** The first `n` entries, renamed. */
  function RenamedUpTo(xs: seq<Interface>, n: nat, hintMap: map<string, set<string>>, versioned: seq<string>): (r: seq<Interface>)
    requires n <= |xs|
    ensures |r| == n && forall k :: 0 <= k < n ==> r[k] == RenamedWith(xs[k], hintMap, versioned)
  {
    if n == 0 then [] else RenamedUpTo(xs, n - 1, hintMap, versioned) + [RenamedWith(xs[n - 1], hintMap, versioned)]
  }

  /** What `deduplicate_ros_filenames_by_topic_hint2` returns: every entry in order, renamed. */
  function DeduplicatedByHint(xs: seq<Interface>): seq<Interface>
  {
    RenamedUpTo(xs, |xs|, HintMap(xs), VersionedMatches(xs, false))
  }

  /** Only file names change: the result lists the entries in order with their base types, hints and events. */
  lemma DeduplicatedKeepsEntries(xs: seq<Interface>)
    ensures |DeduplicatedByHint(xs)| == |xs|
    ensures forall k :: 0 <= k < |xs| ==>
              DeduplicatedByHint(xs)[k] == xs[k].(rosFilename := DeduplicatedByHint(xs)[k].rosFilename)
  {
  }

  method DeduplicateByTopicHint(xs: seq<Interface>) returns (updated: seq<Interface>)
    ensures updated == DeduplicatedByHint(xs)
  {
    var versioned := FindVersionedMatches(xs, false);
    var hintMap := SetIndexByKey(Names(xs), Hints(xs));
    updated := RenameAll(xs, hintMap, versioned);
  }

  /** The last loop of the source: each entry renamed with the hint map and the versioned matches. */
  method RenameAll(xs: seq<Interface>, hintMap: map<string, set<string>>, versioned: seq<string>)
    returns (updated: seq<Interface>)
    ensures updated == RenamedUpTo(xs, |xs|, hintMap, versioned)
  {
    updated := [];
    for i := 0 to |xs|
      invariant updated == RenamedUpTo(xs, i, hintMap, versioned)
    {
      var x := xs[i];
      var renamed := RenamedFile(x, SetIndexGet(hintMap, x.rosFilename), versioned);
      updated := updated + [x.(rosFilename := renamed)];
    }
  }

  /** A name that some qualifying versioned entry carries gets `XX` appended, whatever its hints. */
  lemma VersionedRenamedXX(xs: seq<Interface>, k: nat, j: nat)
    requires k < |xs| && j < |xs|
    requires Qualifies(xs, j, false) && xs[j].rosFilename == xs[k].rosFilename
    ensures DeduplicatedByHint(xs)[k].rosFilename == xs[k].rosFilename + "XX"
  {
    VersionedMatchesCharacterized(xs, false, xs[k].rosFilename);
  }

  /** The hints under which entry `k`'s name occurs include its own. */
  lemma OwnHint(xs: seq<Interface>, k: nat)
    requires k < |xs|
    ensures xs[k].topicHint in SetIndexGet(HintMap(xs), xs[k].rosFilename)
  {
    SetIndexMembers(Names(xs), Hints(xs), |xs|, xs[k].rosFilename, xs[k].topicHint);
  }

  /** A name that occurs under two different hints has more than one hint in the map. */
  lemma SeveralHints(xs: seq<Interface>, k: nat, j: nat)
    requires k < |xs| && j < |xs|
    requires xs[j].rosFilename == xs[k].rosFilename && xs[j].topicHint != xs[k].topicHint
    ensures |SetIndexGet(HintMap(xs), xs[k].rosFilename)| > 1
  {
    var hints := SetIndexGet(HintMap(xs), xs[k].rosFilename);
    OwnHint(xs, k);
    OwnHint(xs, j);
    TwoMembers(hints, xs[k].topicHint, xs[j].topicHint);
  }

  /** A name that occurs under one hint only has that hint alone in the map. */
  lemma SingleHint(xs: seq<Interface>, k: nat)
    requires k < |xs|
    requires forall i :: 0 <= i < |xs| && xs[i].rosFilename == xs[k].rosFilename ==> xs[i].topicHint == xs[k].topicHint
    ensures SetIndexGet(HintMap(xs), xs[k].rosFilename) == {xs[k].topicHint}
  {
    var hints := SetIndexGet(HintMap(xs), xs[k].rosFilename);
    forall h | h in hints
      ensures h == xs[k].topicHint
    {
      SetIndexMembers(Names(xs), Hints(xs), |xs|, xs[k].rosFilename, h);
    }
    OwnHint(xs, k);
  }

  /**
   * A name that is no versioned match (see VersionedMatchesCharacterized)
   * and occurs under another hint as well gets the acronym of the entry's
   * own hint in front.
   */
  lemma SharedNamePrefixed(xs: seq<Interface>, k: nat, j: nat)
    requires k < |xs| && j < |xs|
    requires xs[k].rosFilename !in VersionedMatches(xs, false)
    requires xs[j].rosFilename == xs[k].rosFilename && xs[j].topicHint != xs[k].topicHint
    ensures DeduplicatedByHint(xs)[k].rosFilename == HintToAcronym(Before(xs[k].topicHint, '.')) + xs[k].rosFilename
  {
    SeveralHints(xs, k, j);
  }

  /** A name that is no versioned match and occurs under one hint only is kept. */
  lemma UniqueNameKept(xs: seq<Interface>, k: nat)
    requires k < |xs|
    requires xs[k].rosFilename !in VersionedMatches(xs, false)
    requires forall i :: 0 <= i < |xs| && xs[i].rosFilename == xs[k].rosFilename ==> xs[i].topicHint == xs[k].topicHint
    ensures DeduplicatedByHint(xs)[k] == xs[k]
  {
    SingleHint(xs, k);
  }
}
