/**
  The string operations the scrapers and the client use, over `seq<char>`:
  Python's `str.replace`, `str.split`, `str.join`, `str.strip`, `str.title`
  and slicing, and JavaScript's `String.prototype.includes` and
  `toLowerCase`. Case mapping covers the ASCII letters only.
 */
module Strings {

  // ---------------------------------------------------------------------
  // Occurrences and counting
  // ---------------------------------------------------------------------

  /** `pat` occurs in `s` starting at offset `i`. */
  predicate OccursAt(s: string, pat: string, i: nat)
  {
    i + |pat| <= |s| && s[i..i + |pat|] == pat
  }

  /** JavaScript `s.includes(pat)`: tries every offset from the left. */
  predicate Includes(s: string, pat: string)
    decreases |s|
  {
    (|pat| <= |s| && s[..|pat|] == pat) || (|s| > 0 && Includes(s[1..], pat))
  }

  /** `Includes` finds an occurrence exactly when one exists at some offset. */
  lemma {:induction false} IncludesIff(s: string, pat: string)
    ensures Includes(s, pat) <==> exists i: nat :: OccursAt(s, pat, i)
    decreases |s|
  {
    if |pat| <= |s| && s[..|pat|] == pat {
      assert OccursAt(s, pat, 0);
    } else if |s| > 0 {
      IncludesIff(s[1..], pat);
      if Includes(s[1..], pat) {
        var i: nat :| OccursAt(s[1..], pat, i);
        assert s[1..][i..i + |pat|] == s[i + 1..i + 1 + |pat|];
        assert OccursAt(s, pat, i + 1);
      }
      if exists i: nat :: OccursAt(s, pat, i) {
        var i: nat :| OccursAt(s, pat, i);
        assert i != 0;
        assert s[1..][i - 1..i - 1 + |pat|] == s[i..i + |pat|];
        assert OccursAt(s[1..], pat, i - 1);
      }
    } else {
      assert |pat| > 0;
    }
  }

  /** Number of occurrences of the character `c` in `s`. */
  function Count(s: string, c: char): (n: nat)
    ensures n <= |s|
    ensures n == 0 <==> c !in s
  {
    if s == [] then 0 else (if s[0] == c then 1 else 0) + Count(s[1..], c)
  }

  // ---------------------------------------------------------------------
  // str.replace
  // ---------------------------------------------------------------------

  /** The characters of `s` with `rep` between them and at both ends: what
      Python's `s.replace("", rep)` returns. */
  function Interleave(s: string, rep: string): string
  {
    if s == [] then rep else rep + [s[0]] + Interleave(s[1..], rep)
  }

  /**
    Python `s.replace(pat, rep)`: every non-overlapping occurrence of `pat`,
    scanning from the left, is replaced by `rep`.
   */
  function Replace(s: string, pat: string, rep: string): string
    decreases |s|
  {
    if |pat| == 0 then Interleave(s, rep)
    else if |s| < |pat| then s
    else if s[..|pat|] == pat then rep + Replace(s[|pat|..], pat, rep)
    else [s[0]] + Replace(s[1..], pat, rep)
  }

  /** Text in which the first character of `pat` never appears comes back unchanged. */
  lemma {:induction false} ReplaceAbsent(s: string, pat: string, rep: string)
    requires |pat| > 0 && pat[0] !in s
    ensures Replace(s, pat, rep) == s
    decreases |s|
  {
    if |s| >= |pat| {
      assert s[..|pat|][0] == s[0];
      ReplaceAbsent(s[1..], pat, rep);
    }
  }

  /** Replacing a single character by text that lacks it leaves none of it. */
  lemma {:induction false} ReplaceCharGone(s: string, c: char, rep: string)
    requires c !in rep
    ensures c !in Replace(s, [c], rep)
    decreases |s|
  {
    if |s| >= 1 {
      ReplaceCharGone(s[1..], c, rep);
      if s[..1] != [c] {
        assert s[0] != c;
      }
    }
  }

  /** A character found neither in `s` nor in `rep` is not in the result. */
  lemma {:induction false} ReplaceKeepsAbsent(s: string, pat: string, rep: string, c: char)
    requires c !in s && c !in rep
    ensures c !in Replace(s, pat, rep)
    decreases |s|
  {
    if |pat| == 0 {
      InterleaveKeepsAbsent(s, rep, c);
    } else if |s| >= |pat| {
      if s[..|pat|] == pat {
        ReplaceKeepsAbsent(s[|pat|..], pat, rep, c);
      } else {
        ReplaceKeepsAbsent(s[1..], pat, rep, c);
      }
    }
  }

  lemma {:induction false} InterleaveKeepsAbsent(s: string, rep: string, c: char)
    requires c !in s && c !in rep
    ensures c !in Interleave(s, rep)
    decreases |s|
  {
    if s != [] {
      InterleaveKeepsAbsent(s[1..], rep, c);
    }
  }

  /**
    Replacing one character by one character maps the text position by
    position: `s.replace(c, d)` has the length of `s` and holds `d` exactly
    where `s` held `c`.
   */
  lemma {:induction false} ReplaceCharByChar(s: string, c: char, d: char)
    ensures |Replace(s, [c], [d])| == |s|
    ensures forall i :: 0 <= i < |s| ==>
      Replace(s, [c], [d])[i] == (if s[i] == c then d else s[i])
    decreases |s|
  {
    if |s| >= 1 {
      ReplaceCharByChar(s[1..], c, d);
      var r := Replace(s, [c], [d]);
      if s[..1] == [c] {
        assert r == [d] + Replace(s[1..], [c], [d]);
      } else {
        assert s[0] != c;
        assert r == [s[0]] + Replace(s[1..], [c], [d]);
      }
    }
  }

  /** Replacing by something no longer than the pattern never lengthens the text. */
  lemma {:induction false} ReplaceShrinks(s: string, pat: string, rep: string)
    requires |rep| <= |pat| && |pat| > 0
    ensures |Replace(s, pat, rep)| <= |s|
    decreases |s|
  {
    if |s| >= |pat| {
      if s[..|pat|] == pat {
        ReplaceShrinks(s[|pat|..], pat, rep);
      } else {
        ReplaceShrinks(s[1..], pat, rep);
      }
    }
  }

  // ---------------------------------------------------------------------
  // str.split and str.join
  // ---------------------------------------------------------------------

  /**
    Python `s.split(sep)` for a non-empty separator (an empty one raises
    ValueError in Python): the pieces between the non-overlapping
    occurrences of `sep`, scanning from the left; always at least one.
   */
  function Split(s: string, sep: string): (parts: seq<string>)
    requires |sep| > 0
    ensures |parts| >= 1
    decreases |s|
  {
    if |s| < |sep| then [s]
    else if s[..|sep|] == sep then [[]] + Split(s[|sep|..], sep)
    else
      var rest := Split(s[1..], sep);
      [[s[0]] + rest[0]] + rest[1..]
  }

  /** Python `sep.join(parts)`. */
  function Join(sep: string, parts: seq<string>): string
  {
    if |parts| == 0 then []
    else if |parts| == 1 then parts[0]
    else parts[0] + sep + Join(sep, parts[1..])
  }

  /**
    The reference definition of `str.replace`: replacing `pat` by `rep` is
    splitting on `pat` and joining with `rep`.
   */
  lemma {:induction false} ReplaceIsSplitJoin(s: string, pat: string, rep: string)
    requires |pat| > 0
    ensures Replace(s, pat, rep) == Join(rep, Split(s, pat))
    decreases |s|
  {
    if |s| < |pat| {
    } else if s[..|pat|] == pat {
      ReplaceIsSplitJoin(s[|pat|..], pat, rep);
    } else {
      ReplaceIsSplitJoin(s[1..], pat, rep);
      var rest := Split(s[1..], pat);
      if |rest| > 1 {
        assert ([[s[0]] + rest[0]] + rest[1..])[1..] == rest[1..];
      }
    }
  }

  /** Splitting and joining again with the same separator gives the text back. */
  lemma JoinSplitRoundTrip(s: string, sep: string)
    requires |sep| > 0
    ensures Join(sep, Split(s, sep)) == s
  {
    ReplaceIsSplitJoin(s, sep, sep);
    ReplaceSelf(s, sep);
  }

  lemma {:induction false} ReplaceSelf(s: string, pat: string)
    requires |pat| > 0
    ensures Replace(s, pat, pat) == s
    decreases |s|
  {
    if |s| >= |pat| {
      if s[..|pat|] == pat {
        ReplaceSelf(s[|pat|..], pat);
        assert s == s[..|pat|] + s[|pat|..];
      } else {
        ReplaceSelf(s[1..], pat);
        assert s == [s[0]] + s[1..];
      }
    }
  }

  /** Splitting on one character yields one more piece than it has occurrences. */
  lemma {:induction false} SplitCharCount(s: string, c: char)
    ensures |Split(s, [c])| == Count(s, c) + 1
    decreases |s|
  {
    if |s| >= 1 {
      SplitCharCount(s[1..], c);
      if s[..1] != [c] {
        assert s[0] != c;
      }
    }
  }

  /** No piece of a split on one character contains that character. */
  lemma {:induction false} SplitCharPieces(s: string, c: char)
    ensures forall k :: 0 <= k < |Split(s, [c])| ==> c !in Split(s, [c])[k]
    decreases |s|
  {
    if |s| >= 1 {
      SplitCharPieces(s[1..], c);
      if s[..1] != [c] {
        assert s[0] != c;
      }
    }
  }

  /**
    Text that starts with a stretch `x` free of the separator's first
    character: the stretch is glued to the first piece of the rest.
   */
  lemma {:induction false} SplitClearPrefix(x: string, rest: string, sep: string)
    requires |sep| > 0 && sep[0] !in x
    ensures Split(x + rest, sep) ==
      [x + Split(rest, sep)[0]] + Split(rest, sep)[1..]
    decreases |x|
  {
    if x != [] {
      var s := x + rest;
      if |s| < |sep| {
        assert |rest| < |sep|;
      } else {
        assert s[..|sep|][0] == x[0];
        assert s[1..] == x[1..] + rest;
        SplitClearPrefix(x[1..], rest, sep);
        assert [x[0]] + (x[1..] + Split(rest, sep)[0]) == x + Split(rest, sep)[0];
      }
    } else {
      var parts := Split(rest, sep);
      assert x + rest == rest && x + parts[0] == parts[0];
      assert [parts[0]] + parts[1..] == parts;
    }
  }

  /**
    Python `s[:n]`: the first `n` elements, all of them when `n` is past the
    end, and for a negative `n` all but the last `-n`.
   */
  function Slice<T>(s: seq<T>, n: int): (r: seq<T>)
    ensures |r| <= |s| && r == s[..|r|]
    ensures 0 <= n ==> |r| == if n <= |s| then n else |s|
    ensures n < 0 ==> |r| == if -n <= |s| then |s| + n else 0
  {
    if 0 <= n then (if n <= |s| then s[..n] else s)
    else if -n <= |s| then s[..|s| + n]
    else []
  }

  // ---------------------------------------------------------------------
  // str.strip
  // ---------------------------------------------------------------------

  /** The characters for which Python's `str.isspace` holds. */
  predicate IsSpace(c: char)
  {
    c == ' ' || ('\t' <= c <= '\r') || ('\U{1c}' <= c <= '\U{1f}') ||
    c == '\U{85}' || c == '\U{a0}' || c == '\U{1680}' ||
    ('\U{2000}' <= c <= '\U{200a}') || c == '\U{2028}' || c == '\U{2029}' ||
    c == '\U{202f}' || c == '\U{205f}' || c == '\U{3000}'
  }

  /** Python `s.lstrip()`: drops the leading whitespace and nothing else. */
  function StripStart(s: string): (r: string)
    ensures |r| <= |s| && r == s[|s| - |r|..]
    ensures r != [] ==> !IsSpace(r[0])
    ensures forall i :: 0 <= i < |s| - |r| ==> IsSpace(s[i])
  {
    if s != [] && IsSpace(s[0]) then StripStart(s[1..]) else s
  }

  /** Python `s.rstrip()`: drops the trailing whitespace and nothing else. */
  function StripEnd(s: string): (r: string)
    ensures |r| <= |s| && r == s[..|r|]
    ensures r != [] ==> !IsSpace(r[|r| - 1])
    ensures forall i :: |r| <= i < |s| ==> IsSpace(s[i])
  {
    if s != [] && IsSpace(s[|s| - 1]) then StripEnd(s[..|s| - 1]) else s
  }

  /** Python `s.strip()`. */
  function Strip(s: string): string
  {
    StripEnd(StripStart(s))
  }

  /**
    `strip` keeps one contiguous piece of its input, starting at `lead`:
    everything before and after it is whitespace, and the piece neither
    starts nor ends with whitespace.
   */
  lemma StripSpec(s: string)
    ensures var r := Strip(s); var lead := |s| - |StripStart(s)|;
      && lead + |r| <= |s| && s[lead..lead + |r|] == r
      && (forall i :: 0 <= i < lead ==> IsSpace(s[i]))
      && (forall i :: lead + |r| <= i < |s| ==> IsSpace(s[i]))
      && (r != [] ==> !IsSpace(r[0]) && !IsSpace(r[|r| - 1]))
  {
    var t := StripStart(s);
    var lead := |s| - |t|;
    StripPiece(s);
    StripTrailing(s);
    StripTrimmed(t);
  }

  lemma StripPiece(s: string)
    ensures var r := Strip(s); var lead := |s| - |StripStart(s)|;
      lead + |r| <= |s| && s[lead..lead + |r|] == r
  {
    var t := StripStart(s);
    var r := StripEnd(t);
    var lead := |s| - |t|;
    PrefixOfSuffix(s, lead, |r|);
  }

  lemma PrefixOfSuffix(s: string, lead: nat, n: nat)
    requires lead + n <= |s|
    ensures s[lead..][..n] == s[lead..lead + n]
  {
  }

  lemma StripTrailing(s: string)
    ensures var r := Strip(s); var lead := |s| - |StripStart(s)|;
      forall i :: lead + |r| <= i < |s| ==> IsSpace(s[i])
  {
    var t := StripStart(s);
    var r := StripEnd(t);
    var lead := |s| - |t|;
    assert t == s[lead..];
    forall i | lead + |r| <= i < |s| ensures IsSpace(s[i]) {
      assert s[i] == t[i - lead];
    }
  }

  lemma StripTrimmed(t: string)
    requires t != [] ==> !IsSpace(t[0])
    ensures var r := StripEnd(t); r != [] ==> !IsSpace(r[0]) && !IsSpace(r[|r| - 1])
  {
    var r := StripEnd(t);
    if r != [] {
      assert r[0] == t[0];
    }
  }

  /** Stripping twice is stripping once. */
  lemma StripIdempotent(s: string)
    ensures Strip(Strip(s)) == Strip(s)
  {
    var r := Strip(s);
    StripSpec(s);
    if r != [] {
      assert StripStart(r) == r;
      assert StripEnd(r) == r;
    }
  }

  // ---------------------------------------------------------------------
  // Case mapping (ASCII letters)
  // ---------------------------------------------------------------------

  predicate IsUpper(c: char) { 'A' <= c <= 'Z' }
  predicate IsLower(c: char) { 'a' <= c <= 'z' }
  /** A letter that has an upper and a lower case form. */
  predicate IsCased(c: char) { IsUpper(c) || IsLower(c) }

  function LowerChar(c: char): char
  {
    if IsUpper(c) then (c as int + 32) as char else c
  }

  function UpperChar(c: char): char
  {
    if IsLower(c) then (c as int - 32) as char else c
  }

  /** JavaScript `s.toLowerCase()`: no upper-case letter is left, and nothing but case changes. */
  function Lower(s: string): (r: string)
    ensures |r| == |s|
    ensures forall i :: 0 <= i < |r| ==> !IsUpper(r[i]) && LowerChar(r[i]) == LowerChar(s[i])
  {
    seq(|s|, i requires 0 <= i < |s| => LowerChar(s[i]))
  }

  /**
    Python's `title` from a given state: a cased letter right after another
    cased letter is lowered, any other is raised.
   */
  function TitleFrom(s: string, prevCased: bool): string
  {
    if s == [] then []
    else [if prevCased then LowerChar(s[0]) else UpperChar(s[0])] + TitleFrom(s[1..], IsCased(s[0]))
  }

  /** Python `s.title()`. */
  function Title(s: string): string
  {
    TitleFrom(s, false)
  }

  /**
    `title` only changes the case of letters: the result has the same length
    and agrees with the input position by position up to case, so uncased
    characters (digits, spaces, `_`) stay where they were.
   */
  lemma {:induction false} TitleFromChangesOnlyCase(s: string, prevCased: bool)
    ensures |TitleFrom(s, prevCased)| == |s|
    ensures forall i :: 0 <= i < |s| ==> LowerChar(TitleFrom(s, prevCased)[i]) == LowerChar(s[i])
    decreases |s|
  {
    if s != [] {
      TitleFromChangesOnlyCase(s[1..], IsCased(s[0]));
      var r := TitleFrom(s, prevCased);
      forall i | 0 <= i < |s| ensures LowerChar(r[i]) == LowerChar(s[i]) {
        if i > 0 {
          assert r[i] == TitleFrom(s[1..], IsCased(s[0]))[i - 1];
        }
      }
    }
  }

  /**
    The case rule of `title`, position by position: a character right after
    a cased letter is lowered, and one at the start or after anything else
    is raised.
   */
  lemma {:induction false} TitleFromByPosition(s: string, prevCased: bool)
    ensures |TitleFrom(s, prevCased)| == |s|
    ensures forall i :: 0 <= i < |s| ==>
      TitleFrom(s, prevCased)[i] ==
        (if (if i == 0 then prevCased else IsCased(s[i - 1])) then LowerChar(s[i]) else UpperChar(s[i]))
    decreases |s|
  {
    if s != [] {
      TitleFromByPosition(s[1..], IsCased(s[0]));
      var r := TitleFrom(s, prevCased);
      forall i | 0 < i < |s|
        ensures r[i] == (if IsCased(s[i - 1]) then LowerChar(s[i]) else UpperChar(s[i]))
      {
        assert r[i] == TitleFrom(s[1..], IsCased(s[0]))[i - 1];
        assert s[1..][i - 1] == s[i];
        if i > 1 {
          assert s[1..][i - 2] == s[i - 1];
        }
      }
    }
  }

  /** Python's `title` case rule over a whole text. */
  lemma TitleByPosition(s: string)
    ensures |Title(s)| == |s|
    ensures forall i :: 0 <= i < |s| ==>
      Title(s)[i] == (if i > 0 && IsCased(s[i - 1]) then LowerChar(s[i]) else UpperChar(s[i]))
  {
    TitleFromByPosition(s, false);
  }

  /** Title-casing twice is title-casing once. */
  lemma {:induction false} TitleFromIdempotent(s: string, prevCased: bool)
    ensures TitleFrom(TitleFrom(s, prevCased), prevCased) == TitleFrom(s, prevCased)
    decreases |s|
  {
    if s != [] {
      var c := if prevCased then LowerChar(s[0]) else UpperChar(s[0]);
      assert IsCased(c) == IsCased(s[0]);
      TitleFromIdempotent(s[1..], IsCased(s[0]));
      assert TitleFrom(s, prevCased)[1..] == TitleFrom(s[1..], IsCased(s[0]));
    }
  }

  lemma TitleIdempotent(s: string)
    ensures Title(Title(s)) == Title(s)
  {
    TitleFromIdempotent(s, false);
  }

  // ---------------------------------------------------------------------
  // Subsequences
  // ---------------------------------------------------------------------

  /** The elements of `a` appear in `b` in the same order, possibly with gaps. */
  predicate IsSubsequence<T(==)>(a: seq<T>, b: seq<T>)
    decreases |b|
  {
    if a == [] then true
    else if b == [] then false
    else if a[0] == b[0] then IsSubsequence(a[1..], b[1..])
    else IsSubsequence(a, b[1..])
  }
}
