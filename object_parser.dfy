/**
 * The object parser of src/git-object-parser.js: splits a `"<type> <size>\0<body>"` object
 * at its first NUL and parses the body of a commit, tag, blob or tree.
 */
module ObjectParser {

  import opened Wrappers
  import opened Bytes
  import opened Text
  import opened PackStore

  // ---------------------------------------------------------------- actors

  /** An author, committer or tagger: the date and the time-zone offset are in milliseconds. */
  datatype Actor = Actor(name: string, email: string, date: Option<int>, timezoneOffset: int)

  /** `s.slice(1, -1)`: `s` without its first and last character. */
  function Unwrap(s: string): string
  {
    if |s| >= 2 then s[1..|s| - 1] else ""
  }

  /** `new Date(+time * 1000)` as milliseconds; `None` is an invalid date. */
  function Millis(time: string): Option<int>
  {
    match NumberOf(time)
    case None => None
    case Some(seconds) => Some(seconds * 1000)
  }

  /**
   * The leftmost match of `/([+-]?\d{2})(\d{2})/` in `tz` from `p` on: the hour text, with
   * its sign if there is one, and the minute text.
   */
  function TzFrom(tz: string, p: nat): (r: Option<(string, string)>)
    ensures r.Some? ==> IsSignedInt(r.value.0) && IsSignedInt(r.value.1)
    ensures r.Some? ==>
      var (hour, minute) := r.value;
      && |minute| == 2 && AllDigits(minute)
      && ((|hour| == 2 && AllDigits(hour)) || (|hour| == 3 && (hour[0] == '+' || hour[0] == '-') && AllDigits(hour[1..])))
    decreases |tz| - p
  {
    if p + 4 > |tz| then None
    else if (tz[p] == '+' || tz[p] == '-') && p + 5 <= |tz| && AllDigits(tz[p + 1..p + 5]) then
      assert tz[p..p + 3][1..] == tz[p + 1..p + 5][..2];
      assert tz[p + 3..p + 5] == tz[p + 1..p + 5][2..];
      Some((tz[p..p + 3], tz[p + 3..p + 5]))
    else if AllDigits(tz[p..p + 4]) then
      assert tz[p..p + 2] == tz[p..p + 4][..2] && tz[p + 2..p + 4] == tz[p..p + 4][2..];
      Some((tz[p..p + 2], tz[p + 2..p + 4]))
    else TzFrom(tz, p + 1)
  }

  /** Whether `/([+-]?\d{2})(\d{2})/` matches at `j`: a sign and four digits, or four digits. */
  predicate TzAt(tz: string, j: nat)
  {
    || (j + 5 <= |tz| && (tz[j] == '+' || tz[j] == '-') && AllDigits(tz[j + 1..j + 5]))
    || (j + 4 <= |tz| && AllDigits(tz[j..j + 4]))
  }

  /**
   * The zone match is the leftmost one: there is none exactly when the pattern matches nowhere
   * from `p` on, and otherwise the hour and minute are read, in that order, at the first
   * position where it matches.
   */
  lemma {:induction false} TzFromLeftmost(tz: string, p: nat)
    ensures TzFrom(tz, p).None? <==> forall j :: p <= j ==> !TzAt(tz, j)
    ensures TzFrom(tz, p).Some? ==>
      var (hour, minute) := TzFrom(tz, p).value;
      exists j :: p <= j && TzAt(tz, j) && (forall k :: p <= k < j ==> !TzAt(tz, k))
        && j + |hour| + 2 <= |tz| && tz[j..j + |hour| + 2] == hour + minute
    decreases |tz| - p
  {
    if p + 4 > |tz| {
      assert forall j :: p <= j ==> !TzAt(tz, j);
    } else if (tz[p] == '+' || tz[p] == '-') && p + 5 <= |tz| && AllDigits(tz[p + 1..p + 5]) {
      assert TzAt(tz, p);
      assert tz[p..p + 5] == tz[p..p + 3] + tz[p + 3..p + 5];
    } else if AllDigits(tz[p..p + 4]) {
      assert TzAt(tz, p);
      assert tz[p..p + 4] == tz[p..p + 2] + tz[p + 2..p + 4];
    } else {
      assert !TzAt(tz, p);
      TzFromLeftmost(tz, p + 1);
      if TzFrom(tz, p).Some? {
        var (hour, minute) := TzFrom(tz, p).value;
        var j :| p + 1 <= j && TzAt(tz, j) && (forall k :: p + 1 <= k < j ==> !TzAt(tz, k))
          && j + |hour| + 2 <= |tz| && tz[j..j + |hour| + 2] == hour + minute;
        assert forall k :: p <= k < j ==> !TzAt(tz, k);
      }
    }
  }

  /**
   * `parseActor([name, email, time, tz])`: only the first four tokens are read. A missing
   * `tz` throws on `undefined.match`, a `tz` without four digits throws on destructuring
   * `null`; the sign of the zone applies to its hours only.
   */
  function ParseActor(tokens: seq<string>): (r: Result<Actor>)
  {
    if |tokens| < 4 then Err(Undefined)
    else
      match TzFrom(tokens[3], 0)
      case None => Err(NoMatch)
      case Some((hour, minute)) =>
        Ok(Actor(tokens[0], Unwrap(tokens[1]), Millis(tokens[2]),
                 (SignedValue(hour) * 60 + SignedValue(minute)) * 60 * 1000))
  }

  /** Tokens after the fourth are never read. */
  lemma ActorReadsFourTokens(tokens: seq<string>, extra: seq<string>)
    requires |tokens| == 4
    ensures ParseActor(tokens + extra) == ParseActor(tokens)
  {
    assert (tokens + extra)[..4] == tokens;
    assert forall k :: 0 <= k < 4 ==> (tokens + extra)[k] == tokens[k];
  }

  /**
   * The actor is read exactly when there is a fourth token holding four digits; then the name
   * is the first token, the email the second without its first and last character, and the
   * date the third read as seconds.
   */
  lemma ActorFields(tokens: seq<string>)
    ensures ParseActor(tokens).Ok? <==> |tokens| >= 4 && TzFrom(tokens[3], 0).Some?
    ensures ParseActor(tokens).Ok? ==>
      var a := ParseActor(tokens).value;
      && a.name == tokens[0]
      && (|tokens[1]| >= 2 ==> a.email == tokens[1][1..|tokens[1]| - 1])
      && (NumberOf(tokens[2]).Some? ==> a.date == Some(NumberOf(tokens[2]).value * 1000))
      && (NumberOf(tokens[2]).None? ==> a.date == None)
      && a.timezoneOffset
        == (SignedValue(TzFrom(tokens[3], 0).value.0) * 60 + SignedValue(TzFrom(tokens[3], 0).value.1)) * 60000
  {
  }

  /** The value of two decimal digits. */
  lemma TwoDigits(s: string)
    requires |s| == 2 && AllDigits(s)
    ensures DigitsValue(s) == (s[0] as int - '0' as int) * 10 + (s[1] as int - '0' as int)
  {
    assert s[..1][..0] == [];
    assert DigitsValue(s[..1]) == s[0] as int - '0' as int;
  }

  /** The value of the decimal digit at `s[k]`. */
  function DigitAt(s: string, k: nat): int
    requires k < |s|
  {
    s[k] as int - '0' as int
  }

  /**
   * The offset, in milliseconds, of a zone matched at `j`: the four digits `HHMM` after an
   * optional sign, the sign negating the hours only.
   */
  function ZoneOffsetAt(tz: string, j: nat): int
    requires TzAt(tz, j)
  {
    var signed := j + 5 <= |tz| && (tz[j] == '+' || tz[j] == '-') && AllDigits(tz[j + 1..j + 5]);
    var d := if signed then j + 1 else j;
    var hours := DigitAt(tz, d) * 10 + DigitAt(tz, d + 1);
    var minutes := DigitAt(tz, d + 2) * 10 + DigitAt(tz, d + 3);
    ((if signed && tz[j] == '-' then -hours else hours) * 60 + minutes) * 60000
  }

  /** Positions where the zone pattern does not match are skipped. */
  lemma {:induction false} TzFromSkips(tz: string, p: nat, j: nat)
    requires p <= j && forall k :: p <= k < j ==> !TzAt(tz, k)
    ensures TzFrom(tz, p) == TzFrom(tz, j)
    decreases j - p
  {
    if p < j {
      assert !TzAt(tz, p);
      TzFromSkips(tz, p + 1, j);
    }
  }

  /**
   * Whatever the other tokens are, the offset is read at the leftmost match of the zone
   * pattern in the fourth token: `(±HH * 60 + MM) * 60000` ms, the sign on the hours only.
   */
  lemma {:induction false} LeftmostZoneOffset(tokens: seq<string>, j: nat)
    requires |tokens| >= 4 && TzAt(tokens[3], j)
    requires forall k :: 0 <= k < j ==> !TzAt(tokens[3], k)
    ensures ParseActor(tokens).Ok?
    ensures ParseActor(tokens).value.timezoneOffset == ZoneOffsetAt(tokens[3], j)
  {
    var tz := tokens[3];
    TzFromSkips(tz, 0, j);
    var (hour, minute) := TzFrom(tz, j).value;
    if j + 5 <= |tz| && (tz[j] == '+' || tz[j] == '-') && AllDigits(tz[j + 1..j + 5]) {
      assert hour == tz[j..j + 3] && minute == tz[j + 3..j + 5];
      TwoDigits(hour[1..]);
      TwoDigits(minute);
    } else {
      assert hour == tz[j..j + 2] && minute == tz[j + 2..j + 4];
      TwoDigits(hour);
      TwoDigits(minute);
    }
  }

  /** A zone starting `±HHMM` is `(±HH * 60 + MM) * 60000` ms, whatever the other tokens are. */
  lemma TimezoneOffset(tokens: seq<string>, sign: char, hh: string, mm: string, rest: string)
    requires |tokens| >= 4 && tokens[3] == [sign] + hh + mm + rest
    requires sign == '+' || sign == '-'
    requires |hh| == 2 && |mm| == 2 && AllDigits(hh) && AllDigits(mm)
    ensures ParseActor(tokens).Ok?
    ensures ParseActor(tokens).value.timezoneOffset
      == ((if sign == '-' then -(DigitsValue(hh) as int) else DigitsValue(hh)) * 60 + DigitsValue(mm)) * 60000
  {
    var tz := tokens[3];
    assert tz[1..5] == hh + mm && tz[1..3] == hh && tz[3..5] == mm;
    assert AllDigits(hh + mm);
    LeftmostZoneOffset(tokens, 0);
    TwoDigits(hh);
    TwoDigits(mm);
  }

  /** A zone starting with four digits `HHMM` and no sign is `(HH * 60 + MM) * 60000` ms. */
  lemma UnsignedTimezoneOffset(tokens: seq<string>, hh: string, mm: string, rest: string)
    requires |tokens| >= 4 && tokens[3] == hh + mm + rest
    requires |hh| == 2 && |mm| == 2 && AllDigits(hh) && AllDigits(mm)
    ensures ParseActor(tokens).Ok?
    ensures ParseActor(tokens).value.timezoneOffset == (DigitsValue(hh) * 60 + DigitsValue(mm)) * 60000
  {
    var tz := tokens[3];
    assert tz[0..4] == hh + mm && tz[0..2] == hh && tz[2..4] == mm;
    assert AllDigits(hh + mm);
    assert IsDigit(tz[0]);
    LeftmostZoneOffset(tokens, 0);
    TwoDigits(hh);
    TwoDigits(mm);
  }

  /** `+0900` is nine hours east; `-0130` is half an hour west, not an hour and a half. */
  lemma TimezoneExamples()
    ensures ParseActor(["n", "<e>", "0", "+0900"]).value.timezoneOffset == 32400000
    ensures ParseActor(["n", "<e>", "0", "-0130"]).value.timezoneOffset == -1800000
  {
    assert "+0900" == ['+'] + "09" + "00" + "";
    assert "-0130" == ['-'] + "01" + "30" + "";
    TimezoneOffset(["n", "<e>", "0", "+0900"], '+', "09", "00", "");
    TimezoneOffset(["n", "<e>", "0", "-0130"], '-', "01", "30", "");
  }

  /**
   * A two-word name shifts the fields: the second word is taken for the email, the email for
   * the time, and the time for the zone.
   */
  lemma MultiWordNameExample()
    ensures ParseActor(["Ada", "Lovelace", "<ada@x>", "1234", "+0000"])
      == Ok(Actor("Ada", "ovelac", None, (12 * 60 + 34) * 60000))
  {
    assert "1234"[0..4] == "1234" && AllDigits("1234");
    assert "1234"[0..2] == "12" && "1234"[2..4] == "34";
    assert TzFrom("1234", 0) == Some(("12", "34"));
    assert !IsSignedInt("<ada@x>");
    TwoDigits("12");
    TwoDigits("34");
    assert |"Lovelace"| == 8 && "Lovelace"[1..7] == "ovelac";
    assert Unwrap("Lovelace") == "ovelac";
    assert Millis("<ada@x>") == None;
    assert SignedValue("12") == 12 && SignedValue("34") == 34;
  }

  // ---------------------------------------------------------------- header lines

  /** The first token of a header line: `lines[i].split(/\s/)[0]`. */
  function Key(line: string): string
  {
    Words(line)[0]
  }

  /** `rest[0]`: the token after the key, `None` for `undefined`. */
  function FirstArg(line: string): Option<string>
  {
    var words := Words(line);
    if |words| >= 2 then Some(words[1]) else None
  }

  /** `parseActor(rest)` on the tokens after the key. */
  function ActorOf(line: string): Result<Actor>
  {
    ParseActor(Words(line)[1..])
  }

  /** The first `n` lines folded through `step` from `init`, left to right; an error stops it. */
  function Scan<T>(step: (T, string) -> Result<T>, init: T, lines: seq<string>, n: nat): Result<T>
    requires n <= |lines|
  {
    if n == 0 then Ok(init)
    else
      match Scan(step, init, lines, n - 1)
      case Err(e) => Err(e)
      case Ok(acc) => step(acc, lines[n - 1])
  }

  /** Once the fold fails it keeps its error. */
  lemma {:induction false} ScanStaysErr<T>(step: (T, string) -> Result<T>, init: T, lines: seq<string>, n: nat, m: nat)
    requires n <= m <= |lines| && Scan(step, init, lines, n).Err?
    ensures Scan(step, init, lines, m) == Scan(step, init, lines, n)
    decreases m - n
  {
    if n < m {
      ScanStaysErr(step, init, lines, n, m - 1);
    }
  }

  /** Where the header loop stops: the first empty line at or after `i`, or the end. */
  function HeaderEnd(lines: seq<string>, i: nat): (e: nat)
    requires i <= |lines|
    ensures i <= e <= |lines|
    ensures e < |lines| ==> lines[e] == ""
    ensures forall k :: i <= k < e ==> lines[k] != ""
    decreases |lines| - i
  {
    if i == |lines| || lines[i] == "" then i else HeaderEnd(lines, i + 1)
  }

  /** The index of the last of the first `n` lines whose key is `key`. */
  function LastKeyed(lines: seq<string>, n: nat, key: string): (r: Option<nat>)
    requires n <= |lines|
    ensures r.Some? ==> (r.value < n && Key(lines[r.value]) == key
      && forall k :: r.value < k < n ==> Key(lines[k]) != key)
    ensures r.None? ==> forall k :: 0 <= k < n ==> Key(lines[k]) != key
  {
    if n == 0 then None
    else if Key(lines[n - 1]) == key then Some(n - 1)
    else LastKeyed(lines, n - 1, key)
  }

  /** The `FirstArg` of the last line keyed `key`, `None` when there is none. */
  function LastArg(lines: seq<string>, n: nat, key: string): Option<string>
    requires n <= |lines|
  {
    match LastKeyed(lines, n, key)
    case None => None
    case Some(k) => FirstArg(lines[k])
  }

  /** `lines.slice(i).join('\n').trim()`. */
  function Message(lines: seq<string>, i: nat): string
    requires i <= |lines|
  {
    Trim(Join(lines[i..], '\n'))
  }

  /**
   * The message is what follows the header, trimmed: when the header ends at an empty line
   * after at least one header line, the text is the header lines, a line feed, and a rest
   * whose trimmed form is the message; when the first line is empty, the message is the whole
   * text trimmed; and when no line is empty, the message is empty.
   */
  lemma MessageIsRest(text: string)
    ensures var lines := Split(text, '\n');
      var e := HeaderEnd(lines, 0);
      && (0 < e < |lines| ==>
            exists rest :: text == Join(lines[..e], '\n') + "\n" + rest && Message(lines, e) == Trim(rest))
      && (e == 0 ==> Message(lines, 0) == Trim(text))
      && (e == |lines| ==> Message(lines, e) == "")
  {
    var lines := Split(text, '\n');
    var e := HeaderEnd(lines, 0);
    SplitJoin(text, '\n');
    assert lines[0..] == lines;
    assert lines[|lines|..] == [];
    if 0 < e < |lines| {
      JoinAt(lines, e, '\n');
      var rest := Join(lines[e..], '\n');
      assert text == Join(lines[..e], '\n') + "\n" + rest;
    }
  }

  /** Joining splits at any inner boundary of the pieces. */
  lemma {:induction false} JoinAt(parts: seq<string>, e: nat, sep: char)
    requires 0 < e < |parts|
    ensures Join(parts, sep) == Join(parts[..e], sep) + [sep] + Join(parts[e..], sep)
  {
    if e > 1 {
      JoinAt(parts[1..], e - 1, sep);
      assert parts[1..][..e - 1] == parts[..e][1..];
      assert parts[1..][e - 1..] == parts[e..];
    }
  }

  // ---------------------------------------------------------------- commits

  datatype Commit = Commit(
    tree: Option<string>,
    parents: seq<Option<string>>,
    author: Option<Actor>,
    committer: Option<Actor>,
    message: string)

  const NoCommit := Commit(None, [], None, None, "")

  /** One header line of `parseCommit`: the switch on its key. */
  function CommitLine(c: Commit, line: string): Result<Commit>
  {
    var key := Key(line);
    if key == "tree" then Ok(c.(tree := FirstArg(line)))
    else if key == "parent" then Ok(c.(parents := c.parents + [FirstArg(line)]))
    else if key == "author" || key == "committer" then
      match ActorOf(line)
      case Err(e) => Err(e)
      case Ok(a) => if key == "author" then Ok(c.(author := Some(a))) else Ok(c.(committer := Some(a)))
    else Ok(c)
  }

  /** `parseCommit(body)`: the header lines up to the first empty one, then the message. */
  function CommitOf(body: seq<byte>): Result<Commit>
  {
    var lines := Split(ToText(body), '\n');
    var e := HeaderEnd(lines, 0);
    match Scan(CommitLine, NoCommit, lines, e)
    case Err(e) => Err(e)
    case Ok(c) => Ok(c.(message := Message(lines, e)))
  }

  /** The arguments of the `parent` lines among the first `n`, in order. */
  function ParentArgs(lines: seq<string>, n: nat): seq<Option<string>>
    requires n <= |lines|
  {
    if n == 0 then []
    else ParentArgs(lines, n - 1) + (if Key(lines[n - 1]) == "parent" then [FirstArg(lines[n - 1])] else [])
  }

  /** After any number of header lines the parents are the `parent` arguments, in order. */
  lemma {:induction false} CommitParents(lines: seq<string>, n: nat)
    requires n <= |lines| && Scan(CommitLine, NoCommit, lines, n).Ok?
    ensures Scan(CommitLine, NoCommit, lines, n).value.parents == ParentArgs(lines, n)
    ensures Scan(CommitLine, NoCommit, lines, n).value.message == ""
  {
    if n > 0 {
      CommitParents(lines, n - 1);
    }
  }

  /** The tree is the argument of the last `tree` line; earlier ones are overwritten. */
  lemma {:induction false} CommitTree(lines: seq<string>, n: nat)
    requires n <= |lines| && Scan(CommitLine, NoCommit, lines, n).Ok?
    ensures Scan(CommitLine, NoCommit, lines, n).value.tree == LastArg(lines, n, "tree")
  {
    if n > 0 {
      CommitTree(lines, n - 1);
    }
  }

  /** The author is the actor of the last `author` line, which parsed. */
  lemma {:induction false} CommitAuthor(lines: seq<string>, n: nat)
    requires n <= |lines| && Scan(CommitLine, NoCommit, lines, n).Ok?
    ensures var c := Scan(CommitLine, NoCommit, lines, n).value;
      match LastKeyed(lines, n, "author")
      case None => c.author == None
      case Some(k) => ActorOf(lines[k]).Ok? && c.author == Some(ActorOf(lines[k]).value)
  {
    if n > 0 {
      CommitAuthor(lines, n - 1);
    }
  }

  /** The committer is the actor of the last `committer` line, which parsed. */
  lemma {:induction false} CommitCommitter(lines: seq<string>, n: nat)
    requires n <= |lines| && Scan(CommitLine, NoCommit, lines, n).Ok?
    ensures var c := Scan(CommitLine, NoCommit, lines, n).value;
      match LastKeyed(lines, n, "committer")
      case None => c.committer == None
      case Some(k) => ActorOf(lines[k]).Ok? && c.committer == Some(ActorOf(lines[k]).value)
  {
    if n > 0 {
      CommitCommitter(lines, n - 1);
    }
  }

  /** `parseCommit`: a loop over the lines that stops at the first empty one. */
  method ParseCommit(body: seq<byte>) returns (r: Result<Commit>)
    ensures r == CommitOf(body)
  {
    var lines := Split(ToText(body), '\n');
    var commit := NoCommit;
    var i := 0;
    while i < |lines|
      invariant i <= |lines|
      invariant HeaderEnd(lines, i) == HeaderEnd(lines, 0)
      invariant Scan(CommitLine, NoCommit, lines, i) == Ok(commit)
    {
      if |lines[i]| == 0 {
        break;
      }
      var words := Words(lines[i]);
      var key, rest := words[0], words[1..];
      if key == "tree" {
        commit := commit.(tree := if |rest| > 0 then Some(rest[0]) else None);
      } else if key == "parent" {
        commit := commit.(parents := commit.parents + [if |rest| > 0 then Some(rest[0]) else None]);
      } else if key == "author" || key == "committer" {
        var actor := ParseActor(rest);
        if actor.Err? {
          ScanStaysErr(CommitLine, NoCommit, lines, i + 1, HeaderEnd(lines, 0));
          return Err(actor.error);
        }
        if key == "author" {
          commit := commit.(author := Some(actor.value));
        } else {
          commit := commit.(committer := Some(actor.value));
        }
      }
      i := i + 1;
    }
    return Ok(commit.(message := Trim(Join(lines[i..], '\n'))));
  }

  // ---------------------------------------------------------------- tags

  datatype Tag = Tag(
    obj: Option<string>,
    kind: Option<string>,
    name: Option<string>,
    tagger: Option<Actor>,
    message: string)

  const NoTag := Tag(None, None, None, None, "")

  /** One header line of `parseTag`: the switch on its key. */
  function TagLine(t: Tag, line: string): Result<Tag>
  {
    var key := Key(line);
    if key == "object" then Ok(t.(obj := FirstArg(line)))
    else if key == "type" then Ok(t.(kind := FirstArg(line)))
    else if key == "tag" then Ok(t.(name := FirstArg(line)))
    else if key == "tagger" then
      match ActorOf(line)
      case Err(e) => Err(e)
      case Ok(a) => Ok(t.(tagger := Some(a)))
    else Ok(t)
  }

  /** `parseTag(body)`. */
  function TagOf(body: seq<byte>): Result<Tag>
  {
    var lines := Split(ToText(body), '\n');
    var e := HeaderEnd(lines, 0);
    match Scan(TagLine, NoTag, lines, e)
    case Err(e) => Err(e)
    case Ok(t) => Ok(t.(message := Message(lines, e)))
  }

  /**
   * After any number of header lines, `object`, `type` and `tag` are the arguments of the
   * last lines with those keys.
   */
  lemma {:induction false} TagTargets(lines: seq<string>, n: nat)
    requires n <= |lines| && Scan(TagLine, NoTag, lines, n).Ok?
    ensures var t := Scan(TagLine, NoTag, lines, n).value;
      && t.obj == LastArg(lines, n, "object")
      && t.kind == LastArg(lines, n, "type")
      && t.name == LastArg(lines, n, "tag")
      && t.message == ""
  {
    if n > 0 {
      TagTargets(lines, n - 1);
    }
  }

  /** The tagger is the actor of the last `tagger` line, which parsed. */
  lemma {:induction false} TagTagger(lines: seq<string>, n: nat)
    requires n <= |lines| && Scan(TagLine, NoTag, lines, n).Ok?
    ensures var t := Scan(TagLine, NoTag, lines, n).value;
      match LastKeyed(lines, n, "tagger")
      case None => t.tagger == None
      case Some(k) => ActorOf(lines[k]).Ok? && t.tagger == Some(ActorOf(lines[k]).value)
  {
    if n > 0 {
      TagTagger(lines, n - 1);
    }
  }

  /** `parseTag`: the same loop as `parseCommit` with the tag's keys. */
  method ParseTag(body: seq<byte>) returns (r: Result<Tag>)
    ensures r == TagOf(body)
  {
    var lines := Split(ToText(body), '\n');
    var tag := NoTag;
    var i := 0;
    while i < |lines|
      invariant i <= |lines|
      invariant HeaderEnd(lines, i) == HeaderEnd(lines, 0)
      invariant Scan(TagLine, NoTag, lines, i) == Ok(tag)
    {
      if |lines[i]| == 0 {
        break;
      }
      var words := Words(lines[i]);
      var key, rest := words[0], words[1..];
      var arg := if |rest| > 0 then Some(rest[0]) else None;
      if key == "object" {
        tag := tag.(obj := arg);
      } else if key == "type" {
        tag := tag.(kind := arg);
      } else if key == "tag" {
        tag := tag.(name := arg);
      } else if key == "tagger" {
        var actor := ParseActor(rest);
        if actor.Err? {
          ScanStaysErr(TagLine, NoTag, lines, i + 1, HeaderEnd(lines, 0));
          return Err(actor.error);
        }
        tag := tag.(tagger := Some(actor.value));
      }
      i := i + 1;
    }
    return Ok(tag.(message := Trim(Join(lines[i..], '\n'))));
  }

  // ---------------------------------------------------------------- blobs

  /** `parseBlob(body)`: the body as text, which writes back to the same bytes. */
  function ParseBlob(body: seq<byte>): (text: string)
    ensures |text| == |body|
    ensures forall k :: 0 <= k < |text| ==> text[k] as int < 256
    ensures FromText(text) == body
  {
    TextRoundTrip("", body);
    ToText(body)
  }

  // ---------------------------------------------------------------- trees

  datatype TreeEntry = TreeEntry(kind: string, mode: string, name: string, sha1: string)

  /** The alternatives of the entry pattern, in the order they are tried. */
  const ModePrefixes: seq<string> := ["40", "100", "120", "160"]

  /** `treeChildrenTypes`. */
  function ChildType(prefix: string): string
  {
    if prefix == "40" then "tree"
    else if prefix == "100" then "blob"
    else if prefix == "120" then "symlink"
    else "submodule"
  }

  /** How many characters from `p` on `.+` can take: the run before the next line terminator. */
  function LineRun(s: string, p: nat): (n: nat)
    ensures p <= |s| ==> p + n <= |s|
    ensures forall k :: p <= k < p + n ==> k < |s| && !IsLineTerminator(s[k])
    decreases |s| - p
  {
    if p < |s| && !IsLineTerminator(s[p]) then 1 + LineRun(s, p + 1) else 0
  }

  /** `.+` is greedy: the run stops only at the end of the text or at a line terminator. */
  lemma {:induction false} LineRunMaximal(s: string, p: nat)
    requires p <= |s|
    ensures p + LineRun(s, p) == |s| || IsLineTerminator(s[p + LineRun(s, p)])
    decreases |s| - p
  {
    if p < |s| && !IsLineTerminator(s[p]) {
      LineRunMaximal(s, p + 1);
    }
  }

  /**
   * `/(40|100|120|160)(\d{3}) (.+)/` tried at `p` from alternative `alt` on: the prefix, the
   * three mode digits and the name, which runs to the end of the line.
   */
  function EntryMatchAt(s: string, p: nat, alt: nat): Option<(string, string, string)>
    decreases 4 - alt
  {
    if alt >= 4 then None
    else
      var pre := ModePrefixes[alt];
      var q := p + |pre|;
      if q + 4 <= |s| && s[p..q] == pre && AllDigits(s[q..q + 3]) && s[q + 3] == ' ' && LineRun(s, q + 4) >= 1 then
        Some((pre, s[q..q + 3], s[q + 4..q + 4 + LineRun(s, q + 4)]))
      else EntryMatchAt(s, p, alt + 1)
  }

  /** The leftmost match of the entry pattern in `s` at or after `p`. */
  function EntryMatch(s: string, p: nat): Option<(string, string, string)>
    decreases |s| + 1 - p
  {
    if p > |s| then None
    else
      match EntryMatchAt(s, p, 0)
      case Some(m) => Some(m)
      case None => EntryMatch(s, p + 1)
  }

  /** `while (body[j]) j++`: the first NUL at or after `i`, or the end of the body. */
  function NulFrom(body: seq<byte>, i: nat): (j: nat)
    ensures i <= j && (i <= |body| ==> j <= |body|)
    ensures j < |body| ==> body[j] == 0
    ensures forall k :: i <= k < j ==> k < |body| && body[k] != 0
    decreases |body| - i
  {
    if i < |body| && body[i] != 0 then NulFrom(body, i + 1) else i
  }

  /** `while (buff[j]) j++`, the scan both `parse` and `parseTree` make. */
  method SkipToNul(buff: seq<byte>, i: nat) returns (j: nat)
    requires i <= |buff|
    ensures j == NulFrom(buff, i)
  {
    j := i;
    while At(buff, j) != 0
      invariant i <= j <= |buff| && NulFrom(buff, i) == NulFrom(buff, j)
      decreases |buff| - j
    {
      j := j + 1;
    }
  }

  /** The hexadecimal text of the bytes of `body` from `i` up to `end`. */
  function HexRun(body: seq<byte>, i: nat, end: nat): string
    requires i <= end <= |body|
    decreases end - i
  {
    if i == end then "" else HexByte(body[i]) + HexRun(body, i + 1, end)
  }

  /** An entry's id, `body.slice(i, i + 20).toString('hex')`, read byte by byte. */
  function IdText(body: seq<byte>, i: nat): string
  {
    if i <= |body| then HexRun(body, i, Min(i + 20, |body|)) else ""
  }

  function Min(a: nat, b: nat): nat
  {
    if a <= b then a else b
  }

  lemma {:induction false} HexRunIsHex(body: seq<byte>, i: nat, end: nat)
    requires i <= end <= |body|
    ensures HexRun(body, i, end) == Hex(body[i..end])
    decreases end - i
  {
    if i < end {
      HexRunIsHex(body, i + 1, end);
      assert body[i..end][1..] == body[i + 1..end];
    }
  }

  /** The id read byte by byte is the hexadecimal text of the clamped 20-byte slice. */
  lemma IdTextIsHex(body: seq<byte>, i: nat)
    ensures IdText(body, i) == Hex(Slice(body, i, i + 20))
  {
    if i <= |body| {
      HexRunIsHex(body, i, Min(i + 20, |body|));
    }
  }

  /** The entry a match and an id make, and where the next entry starts. */
  function EntryOf(found: Option<(string, string, string)>, sha1: string, next: nat): (r: Option<(TreeEntry, nat)>)
    ensures r.Some? <==> found.Some?
    ensures r.Some? ==> r.value.1 == next
  {
    match found
    case None => None
    case Some((pre, mode, name)) => Some((TreeEntry(ChildType(pre), mode, name, sha1), next))
  }

  /** One entry of `parseTree` at `i`: the entry and the offset past its id, `None` when the text does not match. */
  function EntryFrom(body: seq<byte>, i: nat): (r: Option<(TreeEntry, nat)>)
    ensures r.Some? ==> r.value.1 > i
  {
    var j := NulFrom(body, i);
    EntryOf(EntryMatch(ToText(Slice(body, i, j)), 0), IdText(body, j + 1), j + 21)
  }

  /** `parseTree` from offset `i`: each entry is a text up to a NUL, then 20 id bytes. */
  function TreeFrom(body: seq<byte>, i: nat): (r: Result<seq<TreeEntry>>)
    decreases |body| - i
  {
    if i >= |body| then Ok([])
    else
      match EntryFrom(body, i)
      case None => Err(NoMatch)
      case Some((entry, next)) =>
        match TreeFrom(body, next)
        case Err(e) => Err(e)
        case Ok(rest) => Ok([entry] + rest)
  }

  /** `children` followed by the entries of `r`, or `r`'s error. */
  function Prepend(children: seq<TreeEntry>, r: Result<seq<TreeEntry>>): Result<seq<TreeEntry>>
  {
    match r
    case Err(e) => Err(e)
    case Ok(rest) => Ok(children + rest)
  }

  lemma PrependNothing(r: Result<seq<TreeEntry>>)
    ensures Prepend([], r) == r
  {
    if r.Ok? {
      assert [] + r.value == r.value;
    }
  }

  /** Appending the entry at `i` to `children` and going on from past it gives the same result. */
  lemma TreeStep(body: seq<byte>, i: nat, children: seq<TreeEntry>)
    requires i < |body| && EntryFrom(body, i).Some?
    ensures var (entry, next) := EntryFrom(body, i).value;
      Prepend(children, TreeFrom(body, i)) == Prepend(children + [entry], TreeFrom(body, next))
  {
    var (entry, next) := EntryFrom(body, i).value;
    var rest := TreeFrom(body, next);
    if rest.Ok? {
      assert children + ([entry] + rest.value) == children + [entry] + rest.value;
    }
  }

  /** The body of `parseTree`'s loop: scan to the NUL, match the text before it, read the id after it. */
  method ReadEntry(body: seq<byte>, i: nat) returns (r: Option<(TreeEntry, nat)>)
    requires i < |body|
    ensures r == EntryFrom(body, i)
  {
    var j := SkipToNul(body, i);
    assert body[i..j] == Slice(body, i, j);
    var m := EntryMatch(ToText(body[i..j]), 0);
    if m.None? {
      return None;
    }
    return Some((TreeEntry(ChildType(m.value.0), m.value.1, m.value.2, IdText(body, j + 1)), j + 21));
  }

  /** `parseTree`: the `i` cursor and the `children` array. */
  method ParseTree(body: seq<byte>) returns (r: Result<seq<TreeEntry>>)
    ensures r == TreeFrom(body, 0)
  {
    var children: seq<TreeEntry> := [];
    var i := 0;
    PrependNothing(TreeFrom(body, 0));
    while i < |body|
      invariant Prepend(children, TreeFrom(body, i)) == TreeFrom(body, 0)
      decreases |body| - i
    {
      var entry := ReadEntry(body, i);
      if entry.None? {
        return Err(NoMatch);
      }
      TreeStep(body, i, children);
      children := children + [entry.value.0];
      i := entry.value.1;
    }
    assert children + [] == children;
    return Ok(children);
  }

  /** A tree entry as git writes it: the index of its mode prefix, three mode digits, a name and a raw id. */
  datatype RawEntry = RawEntry(alt: nat, mode: string, name: string, id: seq<byte>)

  predicate WellFormedEntry(e: RawEntry)
  {
    && e.alt < 4 && |e.mode| == 3 && AllDigits(e.mode) && |e.id| == 20 && |e.name| >= 1
    && forall k :: 0 <= k < |e.name| ==> 0 < e.name[k] as int < 256 && !IsLineTerminator(e.name[k])
  }

  /** The text before the NUL: mode, a space, the name. */
  function EntryText(e: RawEntry): (t: string)
    requires WellFormedEntry(e)
    ensures forall k :: 0 <= k < |t| ==> 0 < t[k] as int < 256
  {
    ModePrefixes[e.alt] + e.mode + " " + e.name
  }

  function EncodeEntry(e: RawEntry): seq<byte>
    requires WellFormedEntry(e)
  {
    FromText(EntryText(e)) + [0] + e.id
  }

  function EncodeTree(es: seq<RawEntry>): seq<byte>
    requires forall k :: 0 <= k < |es| ==> WellFormedEntry(es[k])
  {
    if es == [] then [] else EncodeEntry(es[0]) + EncodeTree(es[1..])
  }

  /** What `parseTree` reports for a raw entry. */
  function Decoded(e: RawEntry): TreeEntry
    requires WellFormedEntry(e)
  {
    TreeEntry(ChildType(ModePrefixes[e.alt]), e.mode, e.name, Hex(e.id))
  }

  function DecodedAll(es: seq<RawEntry>): seq<TreeEntry>
    requires forall k :: 0 <= k < |es| ==> WellFormedEntry(es[k])
  {
    if es == [] then [] else [Decoded(es[0])] + DecodedAll(es[1..])
  }

  /** The name runs to the end of the entry text. */
  lemma {:induction false} LineRunToEnd(s: string, p: nat)
    requires p <= |s| && forall k :: p <= k < |s| ==> !IsLineTerminator(s[k])
    ensures LineRun(s, p) == |s| - p
    decreases |s| - p
  {
    if p < |s| {
      LineRunToEnd(s, p + 1);
    }
  }

  /** The four mode prefixes differ within their first two characters. */
  lemma PrefixesDiffer(a: nat, b: nat)
    requires a < 4 && b < 4 && a != b
    ensures ModePrefixes[a][0] != ModePrefixes[b][0] || ModePrefixes[a][1] != ModePrefixes[b][1]
  {
  }

  /** An alternative other than the one the text starts with is passed over. */
  lemma AltMisses(s: string, a: nat, b: nat)
    requires a < 4 && b < 4 && a != b
    requires |ModePrefixes[b]| <= |s| && s[..|ModePrefixes[b]|] == ModePrefixes[b]
    ensures EntryMatchAt(s, 0, a) == EntryMatchAt(s, 0, a + 1)
  {
    PrefixesDiffer(a, b);
    var pa, pb := ModePrefixes[a], ModePrefixes[b];
    assert s[0] == pb[0] && s[1] == pb[1];
  }

  /** Where the prefix, the mode, the space and the name sit in an entry's text. */
  lemma EntryTextParts(e: RawEntry)
    requires WellFormedEntry(e)
    ensures var s, q := EntryText(e), |ModePrefixes[e.alt]|;
      && |s| == q + 4 + |e.name| && s[..q] == ModePrefixes[e.alt]
      && s[q..q + 3] == e.mode && s[q + 3] == ' ' && s[q + 4..] == e.name
  {
  }

  /** The alternative an entry was written with matches it, name and all. */
  lemma OwnAltMatches(e: RawEntry)
    requires WellFormedEntry(e)
    ensures EntryMatchAt(EntryText(e), 0, e.alt) == Some((ModePrefixes[e.alt], e.mode, e.name))
  {
    var s := EntryText(e);
    var pre := ModePrefixes[e.alt];
    var q := |pre|;
    EntryTextParts(e);
    forall k | q + 4 <= k < |s|
      ensures !IsLineTerminator(s[k])
    {
      assert s[k] == s[q + 4..][k - q - 4];
    }
    LineRunToEnd(s, q + 4);
    assert s[0..q] == pre;
    assert s[q + 4..q + 4 + LineRun(s, q + 4)] == e.name;
    assert EntryMatchAt(s, 0, e.alt) == Some((pre, s[q..q + 3], s[q + 4..q + 4 + LineRun(s, q + 4)]));
  }

  /** The entry pattern finds the prefix, the mode and the whole name of a written entry. */
  lemma EntryTextMatches(e: RawEntry)
    requires WellFormedEntry(e)
    ensures EntryMatch(EntryText(e), 0) == Some((ModePrefixes[e.alt], e.mode, e.name))
  {
    var s := EntryText(e);
    var m := (ModePrefixes[e.alt], e.mode, e.name);
    OwnAltMatches(e);
    EntryTextParts(e);
    var a := e.alt;
    while a > 0
      invariant 0 <= a <= e.alt && EntryMatchAt(s, 0, a) == Some(m)
    {
      AltMisses(s, a - 1, e.alt);
      a := a - 1;
    }
  }

  /** The first NUL from `i` is `n` bytes on when the `n` bytes before it are not NUL. */
  lemma {:induction false} NulAt(body: seq<byte>, i: nat, n: nat)
    requires i + n < |body| && body[i + n] == 0
    requires forall k :: i <= k < i + n ==> body[k] != 0
    ensures NulFrom(body, i) == i + n
    decreases n
  {
    if n > 0 {
      NulAt(body, i + 1, n - 1);
    }
  }

  /** No byte of `t` is NUL. */
  predicate NoNul(t: seq<byte>)
  {
    forall k :: 0 <= k < |t| ==> t[k] != 0
  }

  /** What reading a written entry back needs of its text: its bytes, their decoding and its match. */
  lemma EntryTextFacts(e: RawEntry)
    requires WellFormedEntry(e)
    ensures var text := EntryText(e);
      && NoNul(FromText(text)) && |FromText(text)| == |text|
      && ToText(FromText(text)) == text
      && EntryMatch(text, 0) == Some((ModePrefixes[e.alt], e.mode, e.name))
  {
    TextRoundTrip(EntryText(e), []);
    EntryTextMatches(e);
  }

  /** A NUL written after bytes that hold none is the first one. */
  lemma NulAfter(pre: seq<byte>, t: seq<byte>, post: seq<byte>)
    requires NoNul(t)
    ensures NulFrom(pre + t + ([0] + post), |pre|) == |pre| + |t|
  {
    var body := pre + t + ([0] + post);
    Middle(pre, t, [0] + post);
    forall k | |pre| <= k < |pre| + |t|
      ensures body[k] != 0
    {
      assert body[k] == body[|pre|..|pre| + |t|][k - |pre|];
    }
    NulAt(body, |pre|, |t|);
  }

  /** Where the text and the id of an entry sit in the bytes around it. */
  lemma EntryBytesAt<T>(pre: seq<T>, t: seq<T>, nul: T, id: seq<T>, post: seq<T>)
    ensures var body, j := pre + t + ([nul] + (id + post)), |pre| + |t|;
      && pre + (t + [nul] + id) + post == body
      && body[|pre|..j] == t && body[j + 1..j + 1 + |id|] == id
  {
    var body, j := pre + t + ([nul] + (id + post)), |pre| + |t|;
    Middle(pre, t, [nul] + (id + post));
    assert body == (pre + t + [nul]) + id + post;
    Middle(pre + t + [nul], id, post);
  }

  lemma Middle<T>(a: seq<T>, b: seq<T>, c: seq<T>)
    ensures (a + b + c)[|a|..|a| + |b|] == b
  {
    assert forall k :: 0 <= k < |b| ==> (a + b + c)[|a| + k] == b[k];
  }

  /** An entry whose text, NUL and id sit at `i` of `body` is read back from them. */
  lemma EntryLaidOut(body: seq<byte>, i: nat, bytes: seq<byte>, id: seq<byte>, pre: string, mode: string, name: string)
    requires |id| == 20 && i + |bytes| + 21 <= |body|
    requires NulFrom(body, i) == i + |bytes|
    requires body[i..i + |bytes|] == bytes
    requires body[i + |bytes| + 1..i + |bytes| + 21] == id
    requires EntryMatch(ToText(bytes), 0) == Some((pre, mode, name))
    ensures EntryFrom(body, i) == Some((TreeEntry(ChildType(pre), mode, name, Hex(id)), i + |bytes| + 21))
  {
    var j := NulFrom(body, i);
    IdTextOf(body, j + 1, id);
    assert Slice(body, i, j) == bytes;
  }

  /** Twenty bytes at `j` read back as their hexadecimal text. */
  lemma IdTextOf(body: seq<byte>, j: nat, id: seq<byte>)
    requires |id| == 20 && j + 20 <= |body| && body[j..j + 20] == id
    ensures IdText(body, j) == Hex(id)
  {
    HexRunIsHex(body, j, j + 20);
  }

  lemma DecodedIs(e: RawEntry)
    requires WellFormedEntry(e)
    ensures Decoded(e) == TreeEntry(ChildType(ModePrefixes[e.alt]), e.mode, e.name, Hex(e.id))
  {
  }

  lemma After<T>(a: seq<T>, b: seq<T>)
    ensures (a + b)[|a|..] == b
  {
  }

  /** A written entry reads back as its decoded form, followed by whatever comes after it. */
  lemma EntryDecodes(pre: seq<byte>, e: RawEntry, post: seq<byte>)
    requires WellFormedEntry(e)
    ensures EntryFrom(pre + EncodeEntry(e) + post, |pre|) == Some((Decoded(e), |pre + EncodeEntry(e)|))
  {
    var text := EntryText(e);
    var bytes := FromText(text);
    var body := pre + bytes + ([0] + (e.id + post));
    assert EncodeEntry(e) == bytes + [0] + e.id;
    EntryBytesAt(pre, bytes, 0, e.id, post);
    assert |pre + EncodeEntry(e)| == |pre| + |bytes| + 21;
    var m := (ModePrefixes[e.alt], e.mode, e.name);
    DecodedIs(e);
    EntryTextFacts(e);
    NulAfter(pre, bytes, e.id + post);
    EntryLaidOut(body, |pre|, bytes, e.id, m.0, m.1, m.2);
  }

  /** `parseTree` recovers every written entry, in order, from wherever the entries start. */
  lemma {:induction false} TreeDecodesEncoding(pre: seq<byte>, es: seq<RawEntry>)
    requires forall k :: 0 <= k < |es| ==> WellFormedEntry(es[k])
    ensures TreeFrom(pre + EncodeTree(es), |pre|) == Ok(DecodedAll(es))
    decreases |es|
  {
    if es == [] {
      assert pre + EncodeTree(es) == pre;
    } else {
      assert pre + EncodeTree(es) == pre + EncodeEntry(es[0]) + EncodeTree(es[1..]);
      var e, rest := es[0], es[1..];
      var tail, next := EncodeTree(rest), pre + EncodeEntry(e);
      Unfold(es);
      EntryDecodes(pre, e, tail);
      TreeDecodesEncoding(next, rest);
      TreeStep(next + tail, |pre|, []);
      PrependNothing(TreeFrom(next + tail, |pre|));
    }
  }

  /** The first written entry and the rest. */
  lemma Unfold(es: seq<RawEntry>)
    requires es != [] && forall k :: 0 <= k < |es| ==> WellFormedEntry(es[k])
    ensures EncodeTree(es) == EncodeEntry(es[0]) + EncodeTree(es[1..])
    ensures DecodedAll(es) == [Decoded(es[0])] + DecodedAll(es[1..])
  {
  }

  /** A tree written from well-formed entries parses back to exactly those entries. */
  lemma TreeRoundTrip(es: seq<RawEntry>)
    requires forall k :: 0 <= k < |es| ==> WellFormedEntry(es[k])
    ensures TreeFrom(EncodeTree(es), 0) == Ok(DecodedAll(es))
  {
    TreeDecodesEncoding([], es);
    assert [] + EncodeTree(es) == EncodeTree(es);
  }

  // ---------------------------------------------------------------- parse

  datatype Body =
    | CommitBody(commit: Commit)
    | TagBody(tag: Tag)
    | BlobBody(text: string)
    | TreeBody(entries: seq<TreeEntry>)

  /** What `parse` returns: the type and size texts of the header and the parsed body. */
  datatype Parsed = Parsed(kind: string, size: Option<string>, body: Body)

  /** `parsers[type](body)`: a type without a parser throws. */
  function BodyOf(kind: string, body: seq<byte>): Result<Body>
  {
    if kind == "commit" then
      match CommitOf(body) case Err(e) => Err(e) case Ok(c) => Ok(CommitBody(c))
    else if kind == "tag" then
      match TagOf(body) case Err(e) => Err(e) case Ok(t) => Ok(TagBody(t))
    else if kind == "blob" then Ok(BlobBody(ParseBlob(body)))
    else if kind == "tree" then
      match TreeFrom(body, 0) case Err(e) => Err(e) case Ok(es) => Ok(TreeBody(es))
    else Err(UnknownType)
  }

  /** `parse(buff)`: the header runs to the first NUL and splits on spaces; the body follows the NUL. */
  function ParseSpec(buff: seq<byte>): Result<Parsed>
  {
    var index := NulFrom(buff, 0);
    var header := Split(ToText(buff[..index]), ' ');
    var size := if |header| >= 2 then Some(header[1]) else None;
    match BodyOf(header[0], Slice(buff, index + 1, |buff|))
    case Err(e) => Err(e)
    case Ok(body) => Ok(Parsed(header[0], size, body))
  }

  /** `parse`: scans to the NUL, splits the header and calls the parser of the type. */
  method Parse(buff: seq<byte>) returns (r: Result<Parsed>)
    ensures r == ParseSpec(buff)
  {
    var index := SkipToNul(buff, 0);
    var header := Split(ToText(buff[..index]), ' ');
    var kind := header[0];
    var size := if |header| >= 2 then Some(header[1]) else None;
    var body := Slice(buff, index + 1, |buff|);
    var parsed: Result<Body>;
    if kind == "commit" {
      var c := ParseCommit(body);
      parsed := if c.Ok? then Ok(CommitBody(c.value)) else Err(c.error);
    } else if kind == "tag" {
      var t := ParseTag(body);
      parsed := if t.Ok? then Ok(TagBody(t.value)) else Err(t.error);
    } else if kind == "blob" {
      parsed := Ok(BlobBody(ParseBlob(body)));
    } else if kind == "tree" {
      var es := ParseTree(body);
      parsed := if es.Ok? then Ok(TreeBody(es.value)) else Err(es.error);
    } else {
      return Err(UnknownType);
    }
    if parsed.Err? {
      return Err(parsed.error);
    }
    return Ok(Parsed(kind, size, parsed.value));
  }

  /** A text ended by a NUL is written as its bytes and a 0. */
  lemma FromTextNul(text: string)
    requires forall k :: 0 <= k < |text| ==> text[k] as int < 256
    ensures FromText(text + "\0") == FromText(text) + [0]
  {
    FromTextAppend(text, ['\0']);
    assert FromText(['\0']) == [0];
  }

  /** The frame's header runs to its first NUL, and the content follows it. */
  lemma FrameBytes(o: PackedObject)
    requires IsBaseKind(o.kind)
    ensures var index := |TypeName(o.kind)| + 1 + |Decimal(o.size)|;
      && NulFrom(Frame(o), 0) == index
      && Frame(o)[..index] == FromText(TypeName(o.kind) + " " + Decimal(o.size))
      && Slice(Frame(o), index + 1, |Frame(o)|) == o.buff
  {
    var text := TypeName(o.kind) + " " + Decimal(o.size);
    assert FrameHeader(o.kind, o.size) == text + "\0";
    assert Frame(o) == FromText(text + "\0") + o.buff;
    HeaderHasNoNul(o);
    FramedText(text, o.buff);
  }

  /** A text without NUL, then a NUL, then content: the first NUL ends the text and the content follows it. */
  lemma FramedText(text: string, content: seq<byte>)
    requires forall k :: 0 <= k < |text| ==> text[k] as int < 256
    requires NoNul(FromText(text))
    ensures var buff, t := FromText(text + "\0") + content, FromText(text);
      && NulFrom(buff, 0) == |text| && buff[..|text|] == t && Slice(buff, |text| + 1, |buff|) == content
  {
    var t := FromText(text);
    FromTextNul(text);
    var buff := FromText(text + "\0") + content;
    assert buff == [] + t + ([0] + content);
    NulAfter([], t, content);
    Middle([], t, [0] + content);
    assert buff == (t + [0]) + content;
    After(t + [0], content);
  }

  /** No byte of the header text before its NUL is a NUL. */
  lemma HeaderHasNoNul(o: PackedObject)
    requires IsBaseKind(o.kind)
    ensures NoNul(FromText(TypeName(o.kind) + " " + Decimal(o.size)))
  {
    var text := TypeName(o.kind) + " " + Decimal(o.size);
    var h := FrameHeader(o.kind, o.size);
    assert h == text + "\0";
    FrameLayout(o);
    forall k | 0 <= k < |text|
      ensures FromText(text)[k] != 0
    {
      assert Frame(o)[k] == Frame(o)[..|h|][k] == FromText(h)[k];
    }
  }

  /** The header text splits on its one space into the type name and the size. */
  lemma HeaderWords(o: PackedObject)
    requires IsBaseKind(o.kind)
    ensures Split(ToText(FromText(TypeName(o.kind) + " " + Decimal(o.size))), ' ')
      == [TypeName(o.kind), Decimal(o.size)]
  {
    var name, digits := TypeName(o.kind), Decimal(o.size);
    var text := name + " " + digits;
    TextRoundTrip(text, []);
    assert text == name + [' '] + digits;
    SplitFirst(name, ' ', digits);
    SplitClean(digits, ' ');
  }

  /**
   * What `find` frames, `parse` takes apart: the type name, the size as decimal text, and the
   * body parsed from exactly the packed object's content.
   */
  lemma FrameParses(o: PackedObject)
    requires IsBaseKind(o.kind)
    ensures ParseSpec(Frame(o)) == match BodyOf(TypeName(o.kind), o.buff)
      case Err(e) => Err(e)
      case Ok(body) => Ok(Parsed(TypeName(o.kind), Some(Decimal(o.size)), body))
  {
    FrameBytes(o);
    HeaderWords(o);
  }
}
