/** The completion engine: the list of known command names, built once at start-up, and the
    candidate list that is rebuilt from it on every keystroke. */
module Completion {
  import opened Order

  datatype Option<T> = None | Some(value: T)

  /** Largest number of candidates update keeps. */
  const MaxCandidates: nat := 8

  /** Separator of the directories in the search path. */
  const PathSeparator: string := ":"

  /** Appended to the command handed to the shell: discard both output streams and run it
      in the background. */
  const Detach: string := " 1>/dev/null 2>/dev/null &"

  // ---------------------------------------------------------------------------------------
  // String helpers
  // ---------------------------------------------------------------------------------------

  /** is_substr: walks both strings while their characters agree and answers whether the
      first one was used up.  Despite its name this is a prefix test. */
  method IsSubstr(str1: string, str2: string) returns (b: bool)
    ensures b <==> IsPrefix(str1, str2)
    ensures str1 == [] ==> b
    ensures b ==> |str1| <= |str2|
  {
    var idx := 0;
    while idx < |str1| && idx < |str2| && str1[idx] == str2[idx]
      invariant idx <= |str1| && idx <= |str2|
      invariant str1[..idx] == str2[..idx]
    {
      idx := idx + 1;
    }
    b := idx >= |str1|;
    if idx < |str1| <= |str2| {
      assert str2[..|str1|][idx] != str1[idx];
    }
  }

  /** `d` occurs in `s` starting at position `k`. */
  predicate OccursAt(s: string, d: string, k: nat)
  {
    k + |d| <= |s| && s[k..k + |d|] == d
  }

  ghost predicate Contains(s: string, d: string)
  {
    exists k: nat :: OccursAt(s, d, k)
  }

  /** std::string::find(d, from): the first position at or after `from` where `d` occurs. */
  function Find(s: string, d: string, from: nat): (r: Option<nat>)
    ensures r.Some? ==> from <= r.value && OccursAt(s, d, r.value)
    ensures forall k: nat :: from <= k && OccursAt(s, d, k) ==> r.Some? && r.value <= k
    decreases |s| - from
  {
    if from + |d| > |s| then None
    else if OccursAt(s, d, from) then Some(from)
    else Find(s, d, from + 1)
  }

  /** The pieces of `s[offset..]` between successive leftmost occurrences of a non-empty
      delimiter. */
  function Pieces(s: string, d: string, offset: nat): (r: seq<string>)
    requires |d| > 0 && offset <= |s|
    ensures |r| > 0
    decreases |s| - offset
  {
    match Find(s, d, offset)
    case None => [s[offset..]]
    case Some(pos) => [s[offset..pos]] + Pieces(s, d, pos + |d|)
  }

  /** The pieces glued back together, with the delimiter between neighbours. */
  function Join(parts: seq<string>, d: string): string
  {
    if |parts| == 0 then []
    else if |parts| == 1 then parts[0]
    else parts[0] + d + Join(parts[1..], d)
  }

  lemma {:induction false} PiecesJoin(s: string, d: string, offset: nat)
    requires |d| > 0 && offset <= |s|
    ensures Join(Pieces(s, d, offset), d) == s[offset..]
    decreases |s| - offset
  {
    match Find(s, d, offset)
    case None =>
      assert Pieces(s, d, offset) == [s[offset..]];
    case Some(pos) =>
      var next := pos + |d|;
      var piece := s[offset..pos];
      var rest := Pieces(s, d, next);
      assert Pieces(s, d, offset) == [piece] + rest;
      PiecesJoin(s, d, next);
      JoinCons(piece, rest, d);
      assert s[pos..next] == d;
      SliceConcat(s, offset, pos, next);
  }

  lemma JoinCons(x: string, rest: seq<string>, d: string)
    requires |rest| > 0
    ensures Join([x] + rest, d) == x + d + Join(rest, d)
  {
    assert ([x] + rest)[1..] == rest;
  }

  lemma SliceConcat(s: string, i: nat, j: nat, k: nat)
    requires i <= j <= k <= |s|
    ensures s[i..] == s[i..j] + s[j..k] + s[k..]
  {
  }

  lemma SliceOfSlice(s: string, lo: nat, hi: nat, k: nat, len: nat)
    requires lo <= hi <= |s| && k + len <= hi - lo
    ensures s[lo..hi][k..k + len] == s[lo + k..lo + k + len]
  {
    var a := s[lo..hi][k..k + len];
    var b := s[lo + k..lo + k + len];
    forall j | 0 <= j < len ensures a[j] == b[j] {
      assert a[j] == s[lo..hi][k + j];
    }
  }

  /** A slice of `s` in which no occurrence of `d` starts and ends does not contain `d`. */
  lemma NoOccurrenceIn(s: string, d: string, lo: nat, hi: nat)
    requires lo <= hi <= |s|
    requires forall k: nat :: lo <= k && k + |d| <= hi ==> !OccursAt(s, d, k)
    ensures !Contains(s[lo..hi], d)
  {
    forall k: nat ensures !OccursAt(s[lo..hi], d, k) {
      if k + |d| <= hi - lo {
        SliceOfSlice(s, lo, hi, k, |d|);
        assert !OccursAt(s, d, lo + k);
      }
    }
  }

  lemma {:induction false} PiecesAvoidDelimiter(s: string, d: string, offset: nat)
    requires |d| > 0 && offset <= |s|
    ensures forall i :: 0 <= i < |Pieces(s, d, offset)| ==> !Contains(Pieces(s, d, offset)[i], d)
    decreases |s| - offset
  {
    match Find(s, d, offset)
    case None =>
      NoOccurrenceIn(s, d, offset, |s|);
      assert Pieces(s, d, offset) == [s[offset..]];
      assert s[offset..] == s[offset..|s|];
    case Some(pos) =>
      NoOccurrenceIn(s, d, offset, pos);
      PiecesAvoidDelimiter(s, d, pos + |d|);
      assert Pieces(s, d, offset) == [s[offset..pos]] + Pieces(s, d, pos + |d|);
  }

  /** What split returns: the string itself for an empty delimiter, its pieces otherwise. */
  function Fields(s: string, d: string): (r: seq<string>)
    ensures |r| > 0
    ensures d == [] ==> r == [s]
  {
    if |d| == 0 then [s] else Pieces(s, d, 0)
  }

  /** For a non-empty delimiter, joining split's pieces with it gives back the string, and
      no piece contains the delimiter. */
  lemma FieldsProperties(s: string, d: string)
    requires d != []
    ensures Join(Fields(s, d), d) == s
    ensures forall i :: 0 <= i < |Fields(s, d)| ==> !Contains(Fields(s, d)[i], d)
  {
    PiecesJoin(s, d, 0);
    PiecesAvoidDelimiter(s, d, 0);
  }

  /** split: cuts `str` at every leftmost occurrence of `delim`, scanning with find. */
  method Split(str: string, delim: string) returns (result: seq<string>)
    ensures result == Fields(str, delim)
  {
    result := [];
    if |delim| == 0 {
      result := result + [str];
      return;
    }
    var offset := 0;
    while true
      invariant offset <= |str|
      invariant result + Pieces(str, delim, offset) == Pieces(str, delim, 0)
      decreases |str| - offset
    {
      var pos := Find(str, delim, offset);
      if pos.None? {
        ghost var rest := Pieces(str, delim, offset);
        assert rest == [str[offset..]];
        result := result + [str[offset..]];
        return;
      }
      var piece := str[offset..pos.value];
      var next := pos.value + |delim|;
      ghost var tail := Pieces(str, delim, next);
      assert Pieces(str, delim, offset) == [piece] + tail;
      assert (result + [piece]) + tail == result + ([piece] + tail);
      result := result + [piece];
      offset := next;
    }
  }

  /** Consecutive delimiters give an empty piece between them. */
  lemma SplitEmptyPiece()
    ensures Fields("a::b", ":") == ["a", "", "b"]
  {
    var s := "a::b";
    assert s[0] == 'a' && s[3] == 'b';
    assert !OccursAt(s, ":", 0);
    assert OccursAt(s, ":", 1);
    assert Find(s, ":", 0) == Some(1);
    assert OccursAt(s, ":", 2);
    assert Find(s, ":", 2) == Some(2);
    assert !OccursAt(s, ":", 3);
    assert Find(s, ":", 3) == None;
    assert s[..1] == "a" && s[2..2] == "" && s[3..] == "b";
  }

  // ---------------------------------------------------------------------------------------
  // Names found on the search path
  // ---------------------------------------------------------------------------------------

  /** The directories searched: the search path split at ':', adjacent repeats dropped. */
  function SearchDirs(path: string): (r: seq<string>)
    ensures |r| > 0
    ensures forall i :: 0 <= i < |r| - 1 ==> r[i] != r[i + 1]
    ensures forall dir :: dir in r <==> dir in Fields(path, PathSeparator)
  {
    Squash(Fields(path, PathSeparator))
  }

  /** Some directory among `dirs` that exists lists `name`. */
  predicate Listed(dirs: seq<string>, listing: map<string, seq<string>>, name: string)
  {
    exists i :: 0 <= i < |dirs| && dirs[i] in listing && name in listing[dirs[i]]
  }

  /** The names listed in `dirs`, directory after directory; a path that is not a directory
      (absent from `listing`) contributes nothing. */
  function Gather(dirs: seq<string>, listing: map<string, seq<string>>): (r: seq<string>)
    ensures forall name :: name in r <==> Listed(dirs, listing, name)
  {
    if dirs == [] then []
    else
      var init := dirs[..|dirs| - 1];
      var last := dirs[|dirs| - 1];
      var t := Gather(init, listing);
      var r := t + (if last in listing then listing[last] else []);
      assert forall name :: Listed(dirs, listing, name) <==>
        Listed(init, listing, name) || (last in listing && name in listing[last]) by {
        forall name | Listed(dirs, listing, name)
          ensures Listed(init, listing, name) || (last in listing && name in listing[last])
        {
          var i :| 0 <= i < |dirs| && dirs[i] in listing && name in listing[dirs[i]];
          if i < |dirs| - 1 {
            assert init[i] == dirs[i];
          }
        }
        forall name | Listed(init, listing, name) ensures Listed(dirs, listing, name) {
          var i :| 0 <= i < |init| && init[i] in listing && name in listing[init[i]];
          assert dirs[i] == init[i];
        }
      }
      r
  }

  /** The search path "a:b:a" keeps both "a" entries, in order. */
  lemma SearchDirsKeepsDistantRepeat()
    ensures SearchDirs("a:b:a") == ["a", "b", "a"]
  {
    var s := "a:b:a";
    assert s[0] == 'a' && s[2] == 'b' && s[4] == 'a';
    assert OccursAt(s, ":", 1) && !OccursAt(s, ":", 0);
    assert Find(s, ":", 0) == Some(1);
    assert OccursAt(s, ":", 3) && !OccursAt(s, ":", 2);
    assert Find(s, ":", 2) == Some(3);
    assert !OccursAt(s, ":", 4) && Find(s, ":", 4) == None;
    assert s[..1] == "a" && s[2..3] == "b" && s[4..] == "a";
    assert Fields(s, ":") == ["a", "b", "a"];
    SquashKeepsDistinctNeighbours(["a", "b", "a"]);
  }

  /** The search path "a:a:b" loses the adjacent repeat. */
  lemma SearchDirsDropsAdjacentRepeat()
    ensures SearchDirs("a:a:b") == ["a", "b"]
  {
    var t := "a:a:b";
    assert t[0] == 'a' && t[2] == 'a' && t[4] == 'b';
    assert OccursAt(t, ":", 1) && !OccursAt(t, ":", 0);
    assert Find(t, ":", 0) == Some(1);
    assert OccursAt(t, ":", 3) && !OccursAt(t, ":", 2);
    assert Find(t, ":", 2) == Some(3);
    assert !OccursAt(t, ":", 4) && Find(t, ":", 4) == None;
    assert t[..1] == "a" && t[2..3] == "a" && t[4..] == "b";
    assert Fields(t, ":") == ["a", "a", "b"];
    assert ["a", "a", "b"][..2] == ["a", "a"];
    assert ["a", "a"][..1] == ["a"];
  }

  /** get_system_commands without the file system: the search path is split at ':' and its
      adjacent repeats dropped, and `listing` stands for what the directory scan finds (the regular
      files and symbolic links of each existing directory). */
  method SystemCommands(path: string, listing: map<string, seq<string>>) returns (names: seq<string>)
    ensures names == Gather(SearchDirs(path), listing)
    ensures forall name :: name in names <==> Listed(SearchDirs(path), listing, name)
  {
    var dirs := Split(path, PathSeparator);
    dirs := Unique(dirs);
    names := [];
    var i := 0;
    while i < |dirs|
      invariant 0 <= i <= |dirs|
      invariant names == Gather(dirs[..i], listing)
    {
      assert dirs[..i + 1][..i] == dirs[..i];
      if dirs[i] in listing {
        names := names + listing[dirs[i]];
      }
      i := i + 1;
    }
    assert dirs[..i] == dirs;
  }

  // ---------------------------------------------------------------------------------------
  // Candidates
  // ---------------------------------------------------------------------------------------

  /** Every index from `from` on whose name begins with `input`, ascending. */
  function Matches(names: seq<string>, input: string, from: nat): (r: seq<nat>)
    requires from <= |names|
    ensures forall k :: k in r <==> from <= k < |names| && IsPrefix(input, names[k])
    ensures forall i, j :: 0 <= i < j < |r| ==> r[i] < r[j]
    decreases |names| - from
  {
    if from == |names| then []
    else
      var rest := Matches(names, input, from + 1);
      assert forall j :: 0 <= j < |rest| ==> rest[j] in rest;
      (if IsPrefix(input, names[from]) then [from] else []) + rest
  }

  /** Some name begins with a non-empty `input`. */
  predicate HasMatch(names: seq<string>, input: string)
  {
    input != [] && exists k :: 0 <= k < |names| && IsPrefix(input, names[k])
  }

  /** The candidate list update leaves behind: the first name that begins with the input,
      if there is one, and nothing for an empty input. */
  function Candidates(names: seq<string>, input: string): (r: seq<nat>)
    ensures |r| <= 1 <= MaxCandidates
    ensures input == [] ==> r == []
    ensures r == [] <==> !HasMatch(names, input)
    ensures r != [] ==> r[0] < |names| && IsPrefix(input, names[r[0]])
    ensures r != [] ==> forall k :: 0 <= k < r[0] ==> !IsPrefix(input, names[k])
  {
    if input == [] then []
    else
      var m := Matches(names, input, 0);
      if m == [] then []
      else
        assert m[0] in m;
        assert forall k :: 0 <= k < m[0] ==> k !in m;
        [m[0]]
  }

  /** On a sorted list the single candidate is the least name that begins with the input. */
  lemma LeastCandidate(names: seq<string>, input: string)
    requires StrictlySorted(names)
    ensures forall k :: 0 <= k < |names| && IsPrefix(input, names[k]) && Candidates(names, input) != [] ==>
      Compare(names[Candidates(names, input)[0]], names[k]) <= 0
  {
    var r := Candidates(names, input);
    if r != [] {
      forall k | 0 <= k < |names| && IsPrefix(input, names[k])
        ensures Compare(names[r[0]], names[k]) <= 0
      {
        CompareZero(names[k], names[k]);
      }
    }
  }

  /** The text of the top candidate, or `fallback` when there is none. */
  function TopName(names: seq<string>, input: string, fallback: string): (r: string)
    requires StrictlySorted(names)
    ensures HasMatch(names, input) ==> r in names && IsPrefix(input, r)
    ensures HasMatch(names, input) ==>
      forall k :: 0 <= k < |names| && IsPrefix(input, names[k]) ==> Compare(r, names[k]) <= 0
    ensures !HasMatch(names, input) ==> r == fallback
  {
    var c := Candidates(names, input);
    LeastCandidate(names, input);
    if c == [] then fallback else names[c[0]]
  }

  /** One hop of alias resolution: an alias name is replaced by its expansion, anything else
      is kept. */
  function ResolveAlias(target: string, aliases: map<string, string>): (r: string)
    ensures target in aliases ==> r == aliases[target]
    ensures target !in aliases ==> r == target
  {
    if target in aliases then aliases[target] else target
  }

  /** Some candidates are well formed: they refer into `names`, in ascending order, and there
      are at most MaxCandidates of them. */
  predicate WellFormed(names: seq<string>, candidates: seq<nat>)
  {
    |candidates| <= MaxCandidates &&
    (forall i :: 0 <= i < |candidates| ==> candidates[i] < |names|) &&
    (forall i, j :: 0 <= i < j < |candidates| ==> candidates[i] < candidates[j])
  }

  // ---------------------------------------------------------------------------------------
  // The engine
  // ---------------------------------------------------------------------------------------

  lemma SortKeepsMembers(s: seq<string>)
    ensures forall x :: x in Sort(s) <==> x in s
  {
    forall x ensures x in Sort(s) <==> x in s {
      assert x in Sort(s) <==> x in multiset(Sort(s));
      assert x in s <==> x in multiset(s);
    }
  }

  /** The completion engine.  `commands` is written by the constructor only; `candidates`
      holds positions in `commands` (Complete::candidates is a vector of pointers into
      Complete::commands) and is
      rewritten by Update only.  `aliases` is the alias table of the configuration, which is
      loaded before the engine is built and never changed afterwards. */
  class Complete {
    var commands: seq<string>
    var candidates: seq<nat>
    const aliases: map<string, string>

    /** The commands are strictly ascending, and every candidate refers into them. */
    ghost predicate Valid()
      reads this
      ensures Valid() ==> |candidates| <= MaxCandidates
      ensures Valid() ==> forall i :: 0 <= i < |candidates| ==> candidates[i] < |commands|
    {
      StrictlySorted(commands) && WellFormed(commands, candidates)
    }

    /** Collects the names on the search path and the alias names, sorts them and drops
        duplicates. */
    constructor (path: string, listing: map<string, seq<string>>, aliases: map<string, string>)
      ensures Valid()
      ensures this.aliases == aliases
      ensures candidates == []
      ensures forall name :: name in commands <==>
        Listed(SearchDirs(path), listing, name) || name in aliases
    {
      var names := SystemCommands(path, listing);
      var pending := aliases.Keys;
      while pending != {}
        invariant pending <= aliases.Keys
        invariant forall name :: name in names <==>
          Listed(SearchDirs(path), listing, name) || (name in aliases && name !in pending)
        decreases pending
      {
        var key :| key in pending;
        names := names + [key];
        pending := pending - {key};
      }
      var sorted := Sort(names);
      SortKeepsMembers(names);
      var unique := Unique(sorted);
      SquashSorted(sorted);
      this.aliases := aliases;
      commands := unique;
      candidates := [];
    }

    /** get: the candidate at `index`, or `default` when there is no such candidate. */
    function Get(index: nat, default: string): (r: string)
      reads this
      requires Valid()
      ensures index < |candidates| ==> r == commands[candidates[index]]
      ensures index >= |candidates| ==> r == default
    {
      if index < |candidates| then commands[candidates[index]] else default
    }

    /** exec, up to the shell: the top candidate (or the input itself when there is none),
        with one alias hop applied, followed by the redirections that detach it. */
    function Exec(input: string): (cmd: string)
      reads this
      requires Valid()
      ensures |cmd| >= |Detach| && cmd[|cmd| - |Detach|..] == Detach
      ensures cmd[..|cmd| - |Detach|] == ResolveAlias(Get(0, input), aliases)
    {
      ResolveAlias(Get(0, input), aliases) + Detach
    }

    /** update: clears the candidates and, for a non-empty input, scans the sorted names,
        registering those the input is a prefix of and stopping at the cap or at the first
        name that does not sort below the input. */
    method Update(input: string)
      requires Valid()
      modifies this`candidates
      ensures Valid()
      ensures commands == old(commands)
      ensures candidates == Candidates(commands, input)
      ensures input == [] ==> candidates == []
      ensures forall i :: 0 <= i < |candidates| ==> IsPrefix(input, commands[candidates[i]])
    {
      candidates := [];
      if |input| == 0 {
        return;
      }
      var i := 0;
      while i < |commands|
        invariant 0 <= i <= |commands|
        invariant candidates == []
        invariant forall k :: 0 <= k < i ==> !IsPrefix(input, commands[k])
      {
        var name := commands[i];
        var hit := IsSubstr(input, name);
        if hit {
          candidates := candidates + [i];
        }
        if |candidates| >= MaxCandidates {
          break;
        }
        if Compare(input, name) <= 0 {
          ScanStop(commands, input, i);
          return;
        }
        if hit {
          PrefixPrecedes(input, name);
        }
        i := i + 1;
      }
      assert !HasMatch(commands, input);
    }
  }

  /** Where the scan in Update stops: at the first name that does not sort below the input,
      the candidate is that name if the input begins it, and there is none otherwise. */
  lemma ScanStop(names: seq<string>, input: string, i: nat)
    requires StrictlySorted(names) && input != [] && i < |names|
    requires forall k :: 0 <= k < i ==> !IsPrefix(input, names[k])
    requires Compare(input, names[i]) <= 0
    ensures Candidates(names, input) == if IsPrefix(input, names[i]) then [i] else []
  {
    if !IsPrefix(input, names[i]) {
      forall k | i < k < |names| ensures !IsPrefix(input, names[k]) {
        if IsPrefix(input, names[k]) {
          PrefixBetween(input, names[i], names[k]);
        }
      }
    }
  }

  // ---------------------------------------------------------------------------------------
  // Properties of the engine
  // ---------------------------------------------------------------------------------------

  /** Whatever the scanned names and aliases, the engine's list of commands is the one
      strictly ascending list holding exactly the listed names and the alias names. */
  lemma UniverseDetermined(c: Complete, d: Complete)
    requires c.Valid() && d.Valid()
    requires forall name :: name in c.commands <==> name in d.commands
    ensures c.commands == d.commands
  {
    StrictlySortedUnique(c.commands, d.commands);
  }

  /** After update(input), get(0, fallback) is the least command that begins with the
      input, or `fallback` when none does or the input is empty. */
  lemma GetAfterUpdate(c: Complete, input: string, fallback: string)
    requires c.Valid() && c.candidates == Candidates(c.commands, input)
    ensures c.Get(0, fallback) == TopName(c.commands, input, fallback)
  {
  }

  /** After update(input), exec(input) runs the least command that begins with the input, or
      the input itself, with one alias hop. */
  lemma ExecAfterUpdate(c: Complete, input: string)
    requires c.Valid() && c.candidates == Candidates(c.commands, input)
    ensures c.Exec(input) == ResolveAlias(TopName(c.commands, input, input), c.aliases) + Detach
  {
    var cmd := c.Exec(input);
    assert cmd == cmd[..|cmd| - |Detach|] + cmd[|cmd| - |Detach|..];
  }

  /** Aliases are resolved once: when the expansion is itself an alias name, that name is
      what runs, not its own expansion. */
  lemma AliasSingleHop(c: Complete, input: string)
    requires c.Valid()
    requires c.Get(0, input) in c.aliases && c.aliases[c.Get(0, input)] in c.aliases
    ensures c.Exec(input) == c.aliases[c.Get(0, input)] + Detach
  {
    var cmd := c.Exec(input);
    assert cmd == cmd[..|cmd| - |Detach|] + cmd[|cmd| - |Detach|..];
  }

  /** The names "cat", "cp", "curl", "ls": three of them begin with "c". */
  lemma MatchesExample()
    ensures Matches(["cat", "cp", "curl", "ls"], "c", 0) == [0, 1, 2]
  {
    var names := ["cat", "cp", "curl", "ls"];
    DiffersAt("c", names[3], 0);
    PrefixOfConcat("c", "at");
    PrefixOfConcat("c", "p");
    PrefixOfConcat("c", "url");
    MatchesSkip(names, "c", 3, []);
    MatchesKeep(names, "c", 2, []);
    MatchesKeep(names, "c", 1, [2]);
    MatchesKeep(names, "c", 0, [1, 2]);
  }

  /** Typing "c" offers "cat" alone, although three names begin with "c": the scan stops at
      the first name not below the input. */
  lemma CandidatesExample()
    ensures Candidates(["cat", "cp", "curl", "ls"], "c") == [0]
  {
    var names := ["cat", "cp", "curl", "ls"];
    assert IsPrefix("c", names[0]);
    assert HasMatch(names, "c");
  }

  lemma MatchesNarrowExample()
    ensures Matches(["cat", "cp", "curl", "ls"], "cu", 0) == [2]
  {
    var names := ["cat", "cp", "curl", "ls"];
    DiffersAt("cu", names[3], 0);
    DiffersAt("cu", names[1], 1);
    DiffersAt("cu", names[0], 1);
    assert IsPrefix("cu", names[2]);
    MatchesSkip(names, "cu", 3, []);
    MatchesKeep(names, "cu", 2, []);
    MatchesSkip(names, "cu", 1, [2]);
    MatchesSkip(names, "cu", 0, [2]);
  }

  /** With the same names, typing "cu" offers "curl". */
  lemma CandidatesNarrowExample()
    ensures Candidates(["cat", "cp", "curl", "ls"], "cu") == [2]
  {
    var names := ["cat", "cp", "curl", "ls"];
    assert IsPrefix("cu", names[2]);
    assert HasMatch(names, "cu");
    DiffersAt("cu", names[1], 1);
    DiffersAt("cu", names[0], 1);
  }

  // Small steps for the worked examples above.

  lemma PrefixOfConcat(p: string, t: string)
    ensures IsPrefix(p, p + t)
  {
    assert (p + t)[..|p|] == p;
  }

  lemma DiffersAt(p: string, s: string, i: nat)
    requires i < |p| && i < |s| && p[i] != s[i]
    ensures !IsPrefix(p, s)
  {
    if |p| <= |s| {
      assert s[..|p|][i] == s[i];
    }
  }

  lemma MatchesKeep(names: seq<string>, input: string, from: nat, rest: seq<nat>)
    requires from < |names| && IsPrefix(input, names[from])
    requires Matches(names, input, from + 1) == rest
    ensures Matches(names, input, from) == [from] + rest
  {
  }

  lemma MatchesSkip(names: seq<string>, input: string, from: nat, rest: seq<nat>)
    requires from < |names| && !IsPrefix(input, names[from])
    requires Matches(names, input, from + 1) == rest
    ensures Matches(names, input, from) == rest
  {
  }

}
