/** White space, letter case and separators in strings. */
module Text {

  predicate IsSpace(c: char) {
    c == ' ' || '\t' <= c <= '\r' || c == '\U{0085}' || c == '\U{00a0}' || c == '\U{1680}' || '\U{2000}' <= c <= '\U{200a}'
    || c == '\U{2028}' || c == '\U{2029}' || c == '\U{202f}' || c == '\U{205f}' || c == '\U{3000}'
  }

  function TrimLeft(s: string): string {
    if s != [] && IsSpace(s[0]) then TrimLeft(s[1..]) else s
  }

  function TrimRight(s: string): string {
    if s != [] && IsSpace(s[|s| - 1]) then TrimRight(s[..|s| - 1]) else s
  }

  function Trim(s: string): string {
    TrimRight(TrimLeft(s))
  }

  /** No white space at either end. */
  predicate Trimmed(s: string) {
    s == [] || (!IsSpace(s[0]) && !IsSpace(s[|s| - 1]))
  }

  lemma TrimmedStays(s: string)
    requires Trimmed(s)
    ensures Trim(s) == s
  {
  }

  predicate Spaces(s: string) {
    forall i :: 0 <= i < |s| ==> IsSpace(s[i])
  }

  lemma {:induction false} TrimRightOf(s: string, after: string)
    requires Spaces(after) && (s == "" || !IsSpace(s[|s| - 1]))
    ensures TrimRight(s + after) == s
  {
    if after != "" {
      TrimRightOf(s, after[..|after| - 1]);
      assert (s + after)[..|s + after| - 1] == s + after[..|after| - 1];
    } else {
      assert s + after == s;
    }
  }

  lemma {:induction false} TrimLeftOf(before: string, s: string)
    requires Spaces(before) && s != "" && !IsSpace(s[0])
    ensures TrimLeft(before + s) == s
  {
    if before != "" {
      TrimLeftOf(before[1..], s);
      assert (before + s)[1..] == before[1..] + s;
    } else {
      assert before + s == s;
    }
  }

  lemma TrimAround(before: string, s: string, after: string)
    requires Spaces(before) && Spaces(after) && s != "" && Trimmed(s)
    ensures Trim(before + s + after) == s
  {
    assert before + s + after == before + (s + after);
    TrimLeftOf(before, s + after);
    TrimRightOf(s, after);
  }

  lemma {:induction false} TrimOfSpaces(s: string)
    requires Spaces(s)
    ensures Trim(s) == "" && TrimLeft(s) == ""
  {
    if s != "" {
      TrimOfSpaces(s[1..]);
    }
  }

  function LowerChar(c: char): char {
    if 'A' <= c <= 'Z' then c - 'A' + 'a' else c
  }

  function Lower(s: string): (r: string)
    ensures |r| == |s| && forall i :: 0 <= i < |s| ==> r[i] == LowerChar(s[i])
  {
    seq(|s|, i requires 0 <= i < |s| => LowerChar(s[i]))
  }

  predicate EqualFold(a: string, b: string) {
    Lower(a) == Lower(b)
  }

  /** The letters without accents have a lower case; every other character is its own. */
  lemma LowerMeaning(c: char)
    ensures Lower("ABCDEFGHIJKLMNOPQRSTUVWXYZ") == "abcdefghijklmnopqrstuvwxyz"
    ensures c !in "ABCDEFGHIJKLMNOPQRSTUVWXYZ" ==> Lower([c]) == [c]
  {
    var all := "ABCDEFGHIJKLMNOPQRSTUVWXYZ";
    forall i | 0 <= i < 26
      ensures all[i] == 'A' + i as char
    {
    }
    if 'A' <= c <= 'Z' {
      assert all[c as int - 'A' as int] == c;
    }
  }

  /** White space in text as it is usually written, and what is none. */
  lemma SpaceMeaning(c: char)
    ensures IsSpace(' ') && IsSpace('\t') && IsSpace('\n') && IsSpace('\U{000b}') && IsSpace('\U{000c}') && IsSpace('\r')
    ensures IsSpace('\U{0085}') && IsSpace('\U{00a0}') && IsSpace('\U{1680}') && IsSpace('\U{2028}') && IsSpace('\U{2029}')
    ensures IsSpace('\U{202f}') && IsSpace('\U{205f}') && IsSpace('\U{3000}')
    ensures '\U{2000}' <= c <= '\U{200a}' ==> IsSpace(c)
    ensures '!' <= c <= '~' ==> !IsSpace(c)
  {
  }

  lemma LowerTwice(s: string)
    ensures Lower(Lower(s)) == Lower(s)
  {
  }

  /** Letter case does not matter to trimming. */
  lemma {:induction false} LowerOfTrimLeft(s: string)
    ensures Lower(TrimLeft(s)) == TrimLeft(Lower(s))
  {
    if s != [] && IsSpace(s[0]) {
      LowerOfTrimLeft(s[1..]);
      assert Lower(s)[1..] == Lower(s[1..]);
    }
  }

  lemma {:induction false} LowerOfTrimRight(s: string)
    ensures Lower(TrimRight(s)) == TrimRight(Lower(s))
  {
    if s != [] && IsSpace(s[|s| - 1]) {
      LowerOfTrimRight(s[..|s| - 1]);
      assert Lower(s)[..|s| - 1] == Lower(s[..|s| - 1]);
    }
  }

  lemma LowerOfTrim(s: string)
    ensures Lower(Trim(s)) == Trim(Lower(s))
  {
    hide Lower;
    LowerOfTrimLeft(s);
    LowerOfTrimRight(TrimLeft(s));
  }

  // ---- Splitting at a separator

  /** The parts of a text between separators; there is always at least one. */
  function Split(s: string, separator: char): (parts: seq<string>)
    ensures |parts| >= 1
  {
    if s == "" then [""]
    else
      var rest := Split(s[1..], separator);
      if s[0] == separator then [""] + rest
      else [[s[0]] + rest[0]] + rest[1..]
  }

  function Joined(parts: seq<string>, separator: char): string
    requires |parts| >= 1
  {
    if |parts| == 1 then parts[0] else parts[0] + [separator] + Joined(parts[1..], separator)
  }

  lemma {:induction false} SplitNothing(s: string, separator: char)
    requires separator !in s
    ensures Split(s, separator) == [s]
  {
    if s != "" {
      SplitNothing(s[1..], separator);
      assert s == [s[0]] + s[1..];
    }
  }

  lemma {:induction false} SplitFirst(part: string, rest: string, separator: char)
    requires separator !in part
    ensures Split(part + [separator] + rest, separator) == [part] + Split(rest, separator)
  {
    var s := part + [separator] + rest;
    if part == "" {
      assert s == [separator] + rest;
    } else {
      assert s[1..] == part[1..] + [separator] + rest;
      SplitFirst(part[1..], rest, separator);
      assert part == [part[0]] + part[1..];
    }
  }

  lemma {:induction false} JoinUndoesSplit(s: string, separator: char)
    ensures Joined(Split(s, separator), separator) == s
  {
    if s != "" {
      var rest := Split(s[1..], separator);
      JoinUndoesSplit(s[1..], separator);
      assert s == [s[0]] + s[1..];
      if s[0] == separator {
        assert ([""] + rest)[1..] == rest;
      } else {
        var all := [[s[0]] + rest[0]] + rest[1..];
        assert all[1..] == rest[1..];
        if |rest| > 1 {
          assert all[0] + [separator] + Joined(all[1..], separator) == [s[0]] + (rest[0] + [separator] + Joined(rest[1..], separator));
        }
      }
    }
  }

  lemma {:induction false} PartsAreClean(s: string, separator: char)
    ensures forall i :: 0 <= i < |Split(s, separator)| ==> separator !in Split(s, separator)[i]
  {
    if s != "" {
      PartsAreClean(s[1..], separator);
    }
  }

  lemma SplitIsInverse(s: string, separator: char)
    ensures Joined(Split(s, separator), separator) == s
    ensures forall i :: 0 <= i < |Split(s, separator)| ==> separator !in Split(s, separator)[i]
  {
    hide Split, Joined;
    JoinUndoesSplit(s, separator);
    PartsAreClean(s, separator);
  }

  /** Splitting more text goes on from the last part. */
  lemma {:induction false} SplitFurther(s: string, more: string, separator: char)
    ensures var parts := Split(s, separator);
            Split(s + more, separator) == parts[..|parts| - 1] + Split(parts[|parts| - 1] + more, separator)
    decreases |s|
  {
    hide Split;
    var parts := Split(s, separator);
    SplitIsInverse(s, separator);
    if |parts| == 1 {
      assert parts[..0] == [] && s == parts[0];
    } else {
      var first, rest := parts[0], Joined(parts[1..], separator);
      assert s == first + [separator] + rest;
      SplitFirst(first, rest, separator);
      assert parts == [first] + Split(rest, separator);
      SplitFurther(rest, more, separator);
      SplitFirst(first, rest + more, separator);
      assert s + more == first + [separator] + (rest + more);
      var later := Split(rest, separator);
      assert parts[|parts| - 1] == later[|later| - 1] && parts[..|parts| - 1] == [first] + later[..|later| - 1];
    }
  }
}
