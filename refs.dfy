/**
 * Ref resolution of src/ref.js over a map from paths (relative to the git directory) to file
 * texts: the candidate paths tried for a name, the packed-refs file, and symbolic refs.
 */
module Refs {

  import opened Wrappers
  import opened Bytes
  import opened Text

  /** The files of the git directory that refs are read from, by relative path. */
  type Files = map<string, string>

  // ---------------------------------------------------------------- candidate paths

  /** The placeholder in the candidate patterns. */
  const Slot := "<refname>"

  /** The candidate patterns, in the order they are tried, each split at its placeholder. */
  const Patterns: seq<(string, string)> := [
    ("", ""),
    ("refs/", ""),
    ("refs/tags/", ""),
    ("refs/heads/", ""),
    ("refs/remotes/", ""),
    ("refs/remotes/", "/HEAD")
  ]

  /** The pattern as written in the table, placeholder included. */
  function Pattern(i: nat): string
    requires i < |Patterns|
  {
    Patterns[i].0 + Slot + Patterns[i].1
  }

  /** The path tried `i`-th for `name`. */
  function Candidate(i: nat, name: string): string
    requires i < |Patterns|
  {
    Patterns[i].0 + name + Patterns[i].1
  }

  /** The first position at or after `i` where `pat` occurs in `s`. */
  function IndexOf(s: string, pat: string, i: nat): (r: Option<nat>)
    ensures r.Some? ==> i <= r.value && r.value + |pat| <= |s| && s[r.value..r.value + |pat|] == pat
    decreases |s| - i
  {
    if i + |pat| > |s| then None
    else if s[i..i + |pat|] == pat then Some(i)
    else IndexOf(s, pat, i + 1)
  }

  /** Whether `pat` occurs in `s` at `k`. */
  predicate OccursAt(s: string, pat: string, k: nat)
  {
    k + |pat| <= |s| && s[k..k + |pat|] == pat
  }

  /**
   * The search finds the first occurrence: no occurrence lies between `i` and the position
   * found, and `None` means `pat` occurs nowhere from `i` on.
   */
  lemma {:induction false} IndexOfFirst(s: string, pat: string, i: nat)
    ensures IndexOf(s, pat, i).Some? ==> forall k :: i <= k < IndexOf(s, pat, i).value ==> !OccursAt(s, pat, k)
    ensures IndexOf(s, pat, i).None? <==> forall k :: i <= k ==> !OccursAt(s, pat, k)
    decreases |s| - i
  {
    if i + |pat| > |s| {
      assert forall k :: i <= k ==> !OccursAt(s, pat, k);
    } else if s[i..i + |pat|] != pat {
      IndexOfFirst(s, pat, i + 1);
      assert !OccursAt(s, pat, i);
    } else {
      assert OccursAt(s, pat, i);
    }
  }

  /** `s.replace(pat, with)` with a string pattern: only the first occurrence is replaced. */
  function ReplaceFirst(s: string, pat: string, with: string): string
  {
    match IndexOf(s, pat, 0)
    case None => s
    case Some(k) => s[..k] + with + s[k + |pat|..]
  }

  /** The search passes positions that cannot start `pat` and stops where it occurs. */
  lemma {:induction false} IndexOfSkips(s: string, pat: string, i: nat, j: nat)
    requires |pat| >= 1 && i <= j && j + |pat| <= |s| && s[j..j + |pat|] == pat
    requires forall k :: i <= k < j ==> s[k] != pat[0]
    ensures IndexOf(s, pat, i) == Some(j)
    decreases j - i
  {
    if i < j {
      assert s[i..i + |pat|][0] == s[i];
      IndexOfSkips(s, pat, i + 1, j);
    }
  }

  /** No pattern has a `<` before its placeholder. */
  lemma PrefixesPlain(i: nat)
    requires i < |Patterns|
    ensures forall k :: 0 <= k < |Patterns[i].0| ==> Patterns[i].0[k] != '<'
  {
  }

  /**
   * `pathes[i].replace('<refname>', name)`: the placeholder is replaced by the name, so the
   * candidates are the name itself, then under refs/, refs/tags/, refs/heads/, refs/remotes/,
   * and the remote's HEAD.
   */
  lemma CandidateReplaces(i: nat, name: string)
    requires i < |Patterns|
    ensures Candidate(i, name) == ReplaceFirst(Pattern(i), Slot, name)
  {
    var (prefix, suffix) := Patterns[i];
    var s := Pattern(i);
    PrefixesPlain(i);
    assert s[|prefix|..|prefix| + |Slot|] == Slot;
    assert forall k :: 0 <= k < |prefix| ==> s[k] == prefix[k];
    IndexOfSkips(s, Slot, 0, |prefix|);
    assert s[..|prefix|] == prefix && s[|prefix| + |Slot|..] == suffix;
  }

  // ---------------------------------------------------------------- packed-refs

  const PackedRefsPath := "packed-refs"

  predicate AllHex(s: string)
  {
    forall k :: 0 <= k < |s| ==> IsHexChar(s[k])
  }

  predicate NoTerminator(s: string)
  {
    forall k :: 0 <= k < |s| ==> !IsLineTerminator(s[k])
  }

  /** Where the run of hexadecimal digits from `i` ends. */
  function HexEnd(s: string, i: nat): (j: nat)
    requires i <= |s|
    ensures i <= j <= |s|
    ensures forall k :: i <= k < j ==> IsHexChar(s[k])
    ensures j < |s| ==> !IsHexChar(s[j])
    decreases |s| - i
  {
    if i < |s| && IsHexChar(s[i]) then HexEnd(s, i + 1) else i
  }

  /**
   * `line.match(/^([\da-f]+) (.+)$/)`: the id and the ref name. The id is the whole run of
   * digits the line starts with, since a space is not one of them.
   */
  function PackedLine(line: string): (r: Option<(string, string)>)
    ensures r.Some? ==>
      && line == r.value.0 + " " + r.value.1
      && |r.value.0| >= 1 && AllHex(r.value.0)
      && |r.value.1| >= 1 && NoTerminator(r.value.1)
  {
    var n := HexEnd(line, 0);
    if 1 <= n && n + 1 < |line| && line[n] == ' ' && NoTerminator(line[n + 1..]) then
      assert line == line[..n] + " " + line[n + 1..];
      Some((line[..n], line[n + 1..]))
    else None
  }

  /** Every line made of an id, a space and a one-line name is read as that pair. */
  lemma PackedLineComplete(id: string, name: string)
    requires |id| >= 1 && AllHex(id) && |name| >= 1 && NoTerminator(name)
    ensures PackedLine(id + " " + name) == Some((id, name))
  {
    var line := id + " " + name;
    assert line[|id|] == ' ';
    assert forall k :: 0 <= k < |id| ==> line[k] == id[k];
    assert HexEnd(line, 0) == |id|;
    assert line[..|id|] == id && line[|id| + 1..] == name;
  }

  /** Blank lines, `#` comments and `^` peeled-tag lines map nothing. */
  lemma PackedLineIgnores(line: string)
    requires line == [] || line[0] == '#' || line[0] == '^'
    ensures PackedLine(line) == None
  {
  }

  /** The `refs` object after the first `n` lines: a matching line maps its name to its id. */
  function RefsFrom(lines: seq<string>, n: nat): map<string, string>
    requires n <= |lines|
  {
    if n == 0 then map[]
    else
      var refs := RefsFrom(lines, n - 1);
      match PackedLine(lines[n - 1])
      case None => refs
      case Some((id, name)) => refs[name := id]
  }

  /** The lines of packed-refs: the trimmed file split at line feeds. */
  function PackedLines(text: string): seq<string>
  {
    Split(Trim(text), '\n')
  }

  /** `parsePackedRefs(gitDir)`: a missing file is caught and leaves the map empty. */
  function PackedRefsOf(files: Files): map<string, string>
  {
    if PackedRefsPath in files then
      var lines := PackedLines(files[PackedRefsPath]);
      RefsFrom(lines, |lines|)
    else map[]
  }

  /** The last of the first `n` lines that maps `name`. */
  function LastFor(lines: seq<string>, n: nat, name: string): (r: Option<nat>)
    requires n <= |lines|
    ensures r.Some? ==> (r.value < n && PackedLine(lines[r.value]).Some? && PackedLine(lines[r.value]).value.1 == name
      && forall k :: r.value < k < n ==> PackedLine(lines[k]).None? || PackedLine(lines[k]).value.1 != name)
    ensures r.None? ==> forall k :: 0 <= k < n ==> PackedLine(lines[k]).None? || PackedLine(lines[k]).value.1 != name
  {
    if n == 0 then None
    else if PackedLine(lines[n - 1]).Some? && PackedLine(lines[n - 1]).value.1 == name then Some(n - 1)
    else LastFor(lines, n - 1, name)
  }

  /**
   * A name is mapped exactly when some line maps it, and then to the id of the last such
   * line: later duplicates overwrite earlier ones.
   */
  lemma {:induction false} PackedLastWins(lines: seq<string>, n: nat, name: string)
    requires n <= |lines|
    ensures name in RefsFrom(lines, n) <==> LastFor(lines, n, name).Some?
    ensures LastFor(lines, n, name).Some? ==>
      RefsFrom(lines, n)[name] == PackedLine(lines[LastFor(lines, n, name).value]).value.0
  {
    if n > 0 {
      PackedLastWins(lines, n - 1, name);
    }
  }

  /** Every id the map holds is a non-empty run of hexadecimal digits. */
  lemma {:induction false} PackedIds(lines: seq<string>, n: nat)
    requires n <= |lines|
    ensures forall name :: name in RefsFrom(lines, n) ==> |RefsFrom(lines, n)[name]| >= 1 && AllHex(RefsFrom(lines, n)[name])
  {
    if n > 0 {
      PackedIds(lines, n - 1);
    }
  }

  /** `parsePackedRefs`: the `forEach` over the lines fills `refs`. */
  method ParsePackedRefs(files: Files) returns (refs: map<string, string>)
    ensures refs == PackedRefsOf(files)
  {
    refs := map[];
    if PackedRefsPath !in files {
      return;
    }
    var lines := Split(Trim(files[PackedRefsPath]), '\n');
    for i := 0 to |lines|
      invariant refs == RefsFrom(lines, i)
    {
      var m := PackedLine(lines[i]);
      if m.Some? {
        refs := refs[m.value.1 := m.value.0];
      }
    }
  }

  // ---------------------------------------------------------------- resolution

  /** `/^[\da-f]{40}$/.test(ref)`. */
  predicate IsId(s: string)
  {
    |s| == 40 && AllHex(s)
  }

  /** `ref.match(/^ref: (.+)$/)[1]`; `None` where the match is null and indexing it throws. */
  function SymbolicTarget(ref: string): (r: Option<string>)
    ensures r.Some? ==> ref == "ref: " + r.value && |r.value| >= 1 && NoTerminator(r.value)
  {
    if |ref| > 5 && ref[..5] == "ref: " && NoTerminator(ref[5..]) then
      assert ref == ref[..5] + ref[5..];
      Some(ref[5..])
    else None
  }

  /**
   * `resolveRef(gitDir, name)` with at most `fuel` nested symbolic refs. `packed` is the
   * parsed packed-refs file, the same on every call.
   */
  function Resolve(files: Files, packed: map<string, string>, name: string, fuel: nat): string
    decreases fuel, 2, 0
  {
    TryCandidates(files, packed, name, fuel, 0)
  }

  /** The `for` loop from candidate `i` on: the first answer wins, and none leaves the name. */
  function TryCandidates(files: Files, packed: map<string, string>, name: string, fuel: nat, i: nat): string
    decreases fuel, 1, |Patterns| - i
  {
    if i >= |Patterns| then name
    else
      var p := Candidate(i, name);
      match Loose(files, packed, p, fuel)
      case Ok(ref) => ref
      case Err(_) =>
        if p in packed && packed[p] != "" then packed[p]
        else TryCandidates(files, packed, name, fuel, i + 1)
  }

  /**
   * The `try` block for path `p`: a missing file or a content that is neither an id nor a
   * symbolic ref throws; so does a symbolic ref once the nesting bound is spent.
   */
  function Loose(files: Files, packed: map<string, string>, p: string, fuel: nat): Result<string>
    decreases fuel, 0, 0
  {
    if p !in files then Err(MissingFile)
    else
      var ref := Trim(files[p]);
      if IsId(ref) then Ok(ref)
      else
        match SymbolicTarget(ref)
        case None => Err(NoMatch)
        case Some(target) =>
          if fuel == 0 then Err(DepthExhausted) else Ok(Resolve(files, packed, target, fuel - 1))
  }

  /** Whether candidate `p` settles the lookup: its own file resolves, or packed-refs has it. */
  predicate Answers(files: Files, packed: map<string, string>, p: string, fuel: nat)
  {
    Loose(files, packed, p, fuel).Ok? || (p in packed && packed[p] != "")
  }

  /** What a settling candidate gives: its own file first, packed-refs only when that throws. */
  function AnswerOf(files: Files, packed: map<string, string>, p: string, fuel: nat): string
    requires Answers(files, packed, p, fuel)
  {
    if Loose(files, packed, p, fuel).Ok? then Loose(files, packed, p, fuel).value else packed[p]
  }

  lemma {:induction false} TryReaches(files: Files, packed: map<string, string>, name: string, fuel: nat, i: nat, k: nat)
    requires i <= k < |Patterns|
    requires forall j :: i <= j < k ==> !Answers(files, packed, Candidate(j, name), fuel)
    requires Answers(files, packed, Candidate(k, name), fuel)
    ensures TryCandidates(files, packed, name, fuel, i) == AnswerOf(files, packed, Candidate(k, name), fuel)
    decreases k - i
  {
    if i < k {
      TryReaches(files, packed, name, fuel, i + 1, k);
    }
  }

  /** The first candidate that settles the lookup gives the result. */
  lemma FirstAnswerWins(files: Files, packed: map<string, string>, name: string, fuel: nat, k: nat)
    requires k < |Patterns|
    requires forall j :: 0 <= j < k ==> !Answers(files, packed, Candidate(j, name), fuel)
    requires Answers(files, packed, Candidate(k, name), fuel)
    ensures Resolve(files, packed, name, fuel) == AnswerOf(files, packed, Candidate(k, name), fuel)
  {
    TryReaches(files, packed, name, fuel, 0, k);
  }

  lemma {:induction false} TryPassesAll(files: Files, packed: map<string, string>, name: string, fuel: nat, i: nat)
    requires i <= |Patterns|
    requires forall j :: i <= j < |Patterns| ==> !Answers(files, packed, Candidate(j, name), fuel)
    ensures TryCandidates(files, packed, name, fuel, i) == name
    decreases |Patterns| - i
  {
    if i < |Patterns| {
      TryPassesAll(files, packed, name, fuel, i + 1);
    }
  }

  /** When no candidate settles the lookup, the name itself is returned. */
  lemma NothingFoundKeepsName(files: Files, packed: map<string, string>, name: string, fuel: nat)
    requires forall j :: 0 <= j < |Patterns| ==> !Answers(files, packed, Candidate(j, name), fuel)
    ensures Resolve(files, packed, name, fuel) == name
  {
    TryPassesAll(files, packed, name, fuel, 0);
  }

  /** `resolveRef`: parses packed-refs, then tries each candidate with early returns. */
  method ResolveRef(files: Files, name: string, fuel: nat) returns (r: string)
    ensures r == Resolve(files, PackedRefsOf(files), name, fuel)
    decreases fuel
  {
    var packed := ParsePackedRefs(files);
    for i := 0 to |Patterns|
      invariant TryCandidates(files, packed, name, fuel, i) == Resolve(files, packed, name, fuel)
    {
      var p := Candidate(i, name);
      if p in files {
        var ref := Trim(files[p]);
        if IsId(ref) {
          return ref;
        }
        var target := SymbolicTarget(ref);
        if target.Some? && fuel > 0 {
          r := ResolveRef(files, target.value, fuel - 1);
          return;
        }
      }
      if p in packed && packed[p] != "" {
        return packed[p];
      }
    }
    return name;
  }

  // ---------------------------------------------------------------- examples

  /** A text without white space at either end, followed by a line feed, trims to itself. */
  lemma TrimLine(t: string)
    requires |t| >= 1 && !IsSpace(t[0]) && !IsSpace(t[|t| - 1])
    ensures Trim(t + "\n") == t && Trim(t) == t
  {
    var s := t + "\n";
    assert s[0] == t[0] && s[|s| - 1] == '\n' && s[..|s| - 1] == t;
    assert IsSpace('\n');
    assert LeadingSpaces(s) == 0 && LeadingSpaces(t) == 0;
    assert s[0..] == s && t[0..] == t;
    assert TrailingSpaces(t) == 0;
    assert TrailingSpaces(s) == 1;
  }

  /** A loose ref file that trims to an id resolves to that id at once. */
  lemma LooseIdResolves(files: Files, packed: map<string, string>, name: string, id: string, fuel: nat)
    requires name in files && Trim(files[name]) == id && IsId(id)
    ensures Resolve(files, packed, name, fuel) == id
  {
    assert Candidate(0, name) == name;
    assert Loose(files, packed, name, fuel) == Ok(id);
  }

  /** A loose file that trims to `ref: <target>` resolves as its target does, one level deeper. */
  lemma SymbolicRefFollows(files: Files, packed: map<string, string>, name: string, target: string, fuel: nat)
    requires fuel >= 1 && name in files && Trim(files[name]) == "ref: " + target
    requires |target| >= 1 && NoTerminator(target)
    ensures Resolve(files, packed, name, fuel) == Resolve(files, packed, target, fuel - 1)
  {
    var ref := "ref: " + target;
    assert ref[0] == 'r';
    assert ref[..5] == "ref: " && ref[5..] == target;
    assert !IsId(ref);
    assert SymbolicTarget(ref) == Some(target);
    assert Candidate(0, name) == name;
    assert Loose(files, packed, name, fuel) == Ok(Resolve(files, packed, target, fuel - 1));
  }

  /** `HEAD` holding `ref: refs/heads/main` resolves through the branch file to its id. */
  lemma SymbolicChainExample(id: string)
    requires IsId(id)
    ensures var files := map["HEAD" := "ref: refs/heads/main\n", "refs/heads/main" := id + "\n"];
      Resolve(files, map[], "HEAD", 1) == id
  {
    var files := map["HEAD" := "ref: refs/heads/main\n", "refs/heads/main" := id + "\n"];
    assert "ref: refs/heads/main\n" == "ref: " + "refs/heads/main" + "\n";
    TrimLine("ref: refs/heads/main");
    TrimLine(id);
    SymbolicRefFollows(files, map[], "HEAD", "refs/heads/main", 1);
    LooseIdResolves(files, map[], "refs/heads/main", id, 0);
  }

  /** A ref naming itself ends, at whatever depth, with the name itself. */
  lemma {:induction false} SelfReferenceKeepsName(name: string, fuel: nat)
    requires |name| >= 1 && NoTerminator(name) && !IsSpace(name[|name| - 1])
    ensures Resolve(map[name := "ref: " + name + "\n"], map[], name, fuel) == name
  {
    var files := map[name := "ref: " + name + "\n"];
    if fuel > 0 {
      SelfReferenceIsSymbolic(name);
      SymbolicRefFollows(files, map[], name, name, fuel);
      SelfReferenceKeepsName(name, fuel - 1);
    } else {
      SelfReferenceAtZero(name);
    }
  }

  /** With no depth left, the self-reference is not followed and no other candidate exists. */
  lemma SelfReferenceAtZero(name: string)
    requires |name| >= 1 && NoTerminator(name) && !IsSpace(name[|name| - 1])
    ensures Resolve(map[name := "ref: " + name + "\n"], map[], name, 0) == name
  {
    var files := map[name := "ref: " + name + "\n"];
    OthersMissing(files, name);
    SelfLooseAtZero(name);
    OnlyOwnFileKeepsName(files, name, 0);
  }

  /** A name whose own file throws and that no other candidate names is returned as it is. */
  lemma OnlyOwnFileKeepsName(files: Files, name: string, fuel: nat)
    requires Loose(files, map[], name, fuel).Err?
    requires forall j :: 1 <= j < |Patterns| ==> Candidate(j, name) !in files
    ensures Resolve(files, map[], name, fuel) == name
  {
    forall j | 0 <= j < |Patterns|
      ensures !Answers(files, map[], Candidate(j, name), fuel)
    {
      if j == 0 {
        assert Candidate(0, name) == name;
      }
    }
    NothingFoundKeepsName(files, map[], name, fuel);
  }

  /** The self-reference's own file throws once no depth is left. */
  lemma SelfLooseAtZero(name: string)
    requires |name| >= 1 && NoTerminator(name) && !IsSpace(name[|name| - 1])
    ensures Loose(map[name := "ref: " + name + "\n"], map[], name, 0) == Err(DepthExhausted)
  {
    var files := map[name := "ref: " + name + "\n"];
    SelfReferenceIsSymbolic(name);
    assert files[name] == ("ref: " + name) + "\n";
  }

  /** A store holding only the name's own file holds no other candidate. */
  lemma OthersMissing(files: Files, name: string)
    requires files.Keys == {name}
    ensures forall j :: 1 <= j < |Patterns| ==> Candidate(j, name) !in files
  {
    forall j | 1 <= j < |Patterns|
      ensures Candidate(j, name) !in files
    {
      CandidateLonger(j, name);
    }
  }

  /** Every candidate after the first puts a directory in front of the name. */
  lemma CandidateLonger(j: nat, name: string)
    requires 1 <= j < |Patterns|
    ensures |Candidate(j, name)| > |name|
  {
    assert |Patterns[j].0| >= 5;
  }

  /** The file of a self-reference holds a symbolic ref, not an id. */
  lemma SelfReferenceIsSymbolic(name: string)
    requires |name| >= 1 && NoTerminator(name) && !IsSpace(name[|name| - 1])
    ensures var ref := "ref: " + name;
      Trim(ref + "\n") == ref && !IsId(ref) && SymbolicTarget(ref) == Some(name)
  {
    var ref := "ref: " + name;
    assert ref[0] == 'r' && ref[|ref| - 1] == name[|name| - 1];
    TrimLine(ref);
    assert ref[..5] == "ref: " && ref[5..] == name;
    assert !IsId(ref);
  }
}
