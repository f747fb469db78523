/**
 * The JavaScript string operations the object store relies on, over `string` as a sequence of
 * code units: `startsWith`, the relational order of strings, and the line and word splitting
 * of the object parser.
 */
module Text {

  import opened Wrappers

  /** `s.startsWith(q)`. */
  predicate StartsWith(s: string, q: string)
  {
    |q| <= |s| && s[..|q|] == q
  }

  /**
   * `a < b` on strings: the first differing code unit decides, and a proper prefix comes
   * first.
   */
  predicate Below(a: string, b: string)
  {
    |b| > 0 && (|a| == 0 || a[0] < b[0] || (a[0] == b[0] && Below(a[1..], b[1..])))
  }

  /** No string is below itself. */
  lemma {:induction false} BelowIrreflexive(a: string)
    ensures !Below(a, a)
  {
    if |a| > 0 {
      BelowIrreflexive(a[1..]);
    }
  }

  /**
   * A string `t` with prefix `q` is below every string `s` above `q` that does not itself
   * start with `q`: all strings with prefix `q` lie before `s`.
   */
  lemma {:induction false} PrefixedBelow(t: string, q: string, s: string)
    requires StartsWith(t, q) && Below(q, s) && !StartsWith(s, q)
    ensures Below(t, s)
  {
    if |q| > 0 && q[0] == s[0] {
      assert t[0] == q[0];
      assert StartsWith(t[1..], q[1..]) by {
        assert t[1..][..|q| - 1] == t[..|q|][1..];
      }
      assert !StartsWith(s[1..], q[1..]) by {
        assert |q| <= |s| ==> s[..|q|] == [s[0]] + s[1..][..|q| - 1];
        assert q == [q[0]] + q[1..];
      }
      PrefixedBelow(t[1..], q[1..], s[1..]);
    }
  }

  /**
   * A string `t` with prefix `q` is above every string `s` not above `q` that does not start
   * with `q`: all strings with prefix `q` lie after `s`.
   */
  lemma {:induction false} PrefixedAbove(t: string, q: string, s: string)
    requires StartsWith(t, q) && !Below(q, s) && !StartsWith(s, q)
    ensures Below(s, t)
  {
    assert |q| > 0;
    assert t[0] == q[0];
    if |s| > 0 && s[0] == q[0] {
      assert StartsWith(t[1..], q[1..]) by {
        assert t[1..][..|q| - 1] == t[..|q|][1..];
      }
      assert !StartsWith(s[1..], q[1..]) by {
        assert |q| <= |s| ==> s[..|q|] == [s[0]] + s[1..][..|q| - 1];
        assert q == [q[0]] + q[1..];
      }
      PrefixedAbove(t[1..], q[1..], s[1..]);
    }
  }

  // ---------------------------------------------------------------- white space and trimming

  /**
   * What `\s` matches and `trim` removes, as far as a single byte of UTF-8 text can be white
   * space: tab, line feed, vertical tab, form feed, carriage return and space. A byte of 0x80
   * or more is part of a multi-byte character, never white space on its own.
   */
  predicate IsSpace(c: char)
  {
    c == ' ' || '\t' <= c <= '\r'
  }

  /** The characters `.` does not match in a regular expression, as single bytes: line feed and carriage return. */
  predicate IsLineTerminator(c: char)
  {
    c == '\n' || c == '\r'
  }

  /** The length of the run of white space that `s` starts with. */
  function LeadingSpaces(s: string): (n: nat)
    ensures n <= |s|
  {
    if s != [] && IsSpace(s[0]) then 1 + LeadingSpaces(s[1..]) else 0
  }

  /** The length of the run of white space that `s` ends with. */
  function TrailingSpaces(s: string): (n: nat)
    ensures n <= |s|
  {
    if s != [] && IsSpace(s[|s| - 1]) then 1 + TrailingSpaces(s[..|s| - 1]) else 0
  }

  /** `s.trim()`: `s` without its leading and trailing white space. */
  function Trim(s: string): string
  {
    var a := LeadingSpaces(s);
    s[a..|s| - TrailingSpaces(s[a..])]
  }

  lemma {:induction false} LeadingSpacesSpec(s: string)
    ensures var n := LeadingSpaces(s);
      (forall k :: 0 <= k < n ==> IsSpace(s[k])) && (n < |s| ==> !IsSpace(s[n]))
  {
    if s != [] && IsSpace(s[0]) {
      LeadingSpacesSpec(s[1..]);
      assert forall k :: 1 <= k < |s| ==> s[k] == s[1..][k - 1];
    }
  }

  lemma {:induction false} TrailingSpacesSpec(s: string)
    ensures var n := TrailingSpaces(s);
      (forall k :: |s| - n <= k < |s| ==> IsSpace(s[k])) && (n < |s| ==> !IsSpace(s[|s| - n - 1]))
  {
    if s != [] && IsSpace(s[|s| - 1]) {
      TrailingSpacesSpec(s[..|s| - 1]);
    }
  }

  /**
   * `s.trim()` is the part of `s` between a run of white space at its start and one at its
   * end, and it neither starts nor ends with white space.
   */
  lemma TrimSpec(s: string) returns (a: nat, b: nat)
    ensures var t := Trim(s);
      && a <= b <= |s| && t == s[a..b]
      && (forall k :: 0 <= k < a ==> IsSpace(s[k]))
      && (forall k :: b <= k < |s| ==> IsSpace(s[k]))
      && (t == [] || (!IsSpace(t[0]) && !IsSpace(t[|t| - 1])))
  {
    a := LeadingSpaces(s);
    var u := s[a..];
    var n := TrailingSpaces(u);
    b := |s| - n;
    var t := s[a..b];
    LeadingSpacesSpec(s);
    TrailingSpacesSpec(u);
    assert forall k :: b <= k < |s| ==> IsSpace(s[k]) by {
      assert forall k :: b <= k < |s| ==> s[k] == u[k - a];
    }
    assert t == [] || (!IsSpace(t[0]) && !IsSpace(t[|t| - 1])) by {
      if t != [] {
        assert t[0] == s[a];
        assert t[|t| - 1] == u[|u| - n - 1];
      }
    }
  }

  // ---------------------------------------------------------------- split and join

  /**
   * `s.split(sep)` for a separator matching single characters: the pieces between the
   * separators, empty pieces included, so there is always at least one.
   */
  function SplitWhere(s: string, isSep: char -> bool): (parts: seq<string>)
    ensures |parts| >= 1
  {
    if s == [] then [""]
    else
      var rest := SplitWhere(s[1..], isSep);
      if isSep(s[0]) then [""] + rest else [[s[0]] + rest[0]] + rest[1..]
  }

  /** `s.split(sep)` with a one-character string separator. */
  function Split(s: string, sep: char): seq<string>
  {
    SplitWhere(s, c => c == sep)
  }

  /** `s.split(/\s/)`. */
  function Words(s: string): seq<string>
  {
    SplitWhere(s, IsSpace)
  }

  /** `parts.join(sep)`. */
  function Join(parts: seq<string>, sep: char): string
  {
    if parts == [] then ""
    else if |parts| == 1 then parts[0]
    else parts[0] + [sep] + Join(parts[1..], sep)
  }

  /** `piece` holds no separator. */
  predicate Clean(piece: string, isSep: char -> bool)
  {
    forall m :: 0 <= m < |piece| ==> !isSep(piece[m])
  }

  /** No piece of a split contains a separator. */
  lemma {:induction false} SplitPiecesClean(s: string, isSep: char -> bool)
    ensures forall k :: 0 <= k < |SplitWhere(s, isSep)| ==> Clean(SplitWhere(s, isSep)[k], isSep)
  {
    if s != [] {
      var rest := SplitWhere(s[1..], isSep);
      SplitPiecesClean(s[1..], isSep);
      if !isSep(s[0]) {
        var parts := [[s[0]] + rest[0]] + rest[1..];
        assert SplitWhere(s, isSep) == parts;
        assert Clean(parts[0], isSep) by {
          assert Clean(rest[0], isSep);
          assert forall m :: 1 <= m < |parts[0]| ==> parts[0][m] == rest[0][m - 1];
        }
        assert forall k :: 1 <= k < |parts| ==> parts[k] == rest[k];
      } else {
        assert SplitWhere(s, isSep) == [""] + rest;
        assert forall k :: 1 <= k < |rest| + 1 ==> ([""] + rest)[k] == rest[k - 1];
      }
    }
  }

  /** Joining the pieces of a split with the separator gives back the string. */
  lemma {:induction false} SplitJoin(s: string, sep: char)
    ensures Join(Split(s, sep), sep) == s
  {
    if s != [] {
      var rest := Split(s[1..], sep);
      SplitJoin(s[1..], sep);
      assert Split(s, sep) == SplitWhere(s, c => c == sep);
      if s[0] == sep {
        assert Split(s, sep) == [""] + rest;
        assert (["" ] + rest)[1..] == rest;
      } else {
        var parts := [[s[0]] + rest[0]] + rest[1..];
        assert Split(s, sep) == parts;
        if |rest| > 1 {
          assert parts[1..] == rest[1..];
        }
      }
    }
  }

  /** A string without separators splits into itself alone. */
  lemma {:induction false} SplitClean(p: string, sep: char)
    requires forall m :: 0 <= m < |p| ==> p[m] != sep
    ensures Split(p, sep) == [p]
  {
    if p != [] {
      SplitClean(p[1..], sep);
      assert [p[0]] + p[1..] == p;
    }
  }

  /** A separator-free piece followed by a separator splits off as the first piece. */
  lemma {:induction false} SplitFirst(p: string, sep: char, rest: string)
    requires forall m :: 0 <= m < |p| ==> p[m] != sep
    ensures Split(p + [sep] + rest, sep) == [p] + Split(rest, sep)
  {
    if p == [] {
      assert ([] + [sep] + rest)[1..] == rest;
    } else {
      SplitFirst(p[1..], sep, rest);
      var s := p + [sep] + rest;
      assert s[1..] == p[1..] + [sep] + rest;
      assert [p[0]] + p[1..] == p;
    }
  }

  /** Splitting the join of separator-free pieces gives back the pieces. */
  lemma {:induction false} JoinSplit(parts: seq<string>, sep: char)
    requires |parts| >= 1
    requires forall k, m :: 0 <= k < |parts| && 0 <= m < |parts[k]| ==> parts[k][m] != sep
    ensures Split(Join(parts, sep), sep) == parts
  {
    if |parts| == 1 {
      SplitClean(parts[0], sep);
    } else {
      JoinSplit(parts[1..], sep);
      SplitFirst(parts[0], sep, Join(parts[1..], sep));
      assert [parts[0]] + parts[1..] == parts;
    }
  }

  // ---------------------------------------------------------------- numbers

  predicate IsDigit(c: char)
  {
    '0' <= c <= '9'
  }

  predicate AllDigits(s: string)
  {
    forall k :: 0 <= k < |s| ==> IsDigit(s[k])
  }

  /** The value of a string of decimal digits. */
  function DigitsValue(s: string): (v: nat)
    requires AllDigits(s)
  {
    if s == [] then 0 else DigitsValue(s[..|s| - 1]) * 10 + (s[|s| - 1] as int - '0' as int)
  }

  /** A decimal integer with an optional sign: what `+s` reads as an integer. */
  predicate IsSignedInt(s: string)
  {
    if |s| > 0 && (s[0] == '+' || s[0] == '-') then |s| > 1 && AllDigits(s[1..])
    else |s| > 0 && AllDigits(s)
  }

  function SignedValue(s: string): int
    requires IsSignedInt(s)
  {
    if s[0] == '-' then -(DigitsValue(s[1..]) as int)
    else if s[0] == '+' then DigitsValue(s[1..])
    else DigitsValue(s)
  }

  /**
   * `+s` on a string without surrounding white space: the empty string is 0, a signed decimal
   * integer is its value, and anything else is `NaN` (None).
   */
  function NumberOf(s: string): (r: Option<int>)
    ensures r.Some? <==> s == [] || IsSignedInt(s)
  {
    if s == [] then Some(0)
    else if IsSignedInt(s) then Some(SignedValue(s))
    else None
  }
}
