/** Models of the functions of Go's `strings` package that the URL convertor
    uses: Index, Trim, Split, Join, HasSuffix, TrimSuffix and EqualFold.
    Strings are sequences of characters; separators and cut sets are the
    single characters the convertor passes. */
module GoStrings {

  /** strings.Index(s, string(c)): the index of the first `c` in `s`, or -1. */
  function Index(s: string, c: char): (i: int)
    ensures -1 <= i < |s|
    ensures i == -1 <==> c !in s
    ensures 0 <= i ==> s[i] == c && c !in s[..i]
  {
    if |s| == 0 then -1
    else if s[0] == c then 0
    else
      var j := Index(s[1..], c);
      if j == -1 then -1
      else
        assert s[..j + 1] == [s[0]] + s[1..][..j];
        j + 1
  }

  /** strings.TrimLeft(s, string(c)): drops every leading `c`. */
  function TrimLeft(s: string, c: char): (r: string)
    ensures |r| <= |s| && r == s[|s| - |r|..]
    ensures forall i :: 0 <= i < |s| - |r| ==> s[i] == c
    ensures r == [] || r[0] != c
  {
    if |s| > 0 && s[0] == c then TrimLeft(s[1..], c) else s
  }

  /** strings.TrimRight(s, string(c)): drops every trailing `c`. */
  function TrimRight(s: string, c: char): (r: string)
    ensures |r| <= |s| && r == s[..|r|]
    ensures forall i :: |r| <= i < |s| ==> s[i] == c
    ensures r == [] || r[|r| - 1] != c
  {
    if |s| > 0 && s[|s| - 1] == c then TrimRight(s[..|s| - 1], c) else s
  }

  /** strings.Trim(s, string(c)): drops every leading and trailing `c`;
      what is left is the part of `s` between the two runs of `c`. */
  function Trim(s: string, c: char): (r: string)
    ensures r == [] || (r[0] != c && r[|r| - 1] != c)
    ensures var k := |s| - |TrimLeft(s, c)|;
      && k + |r| <= |s|
      && r == s[k..k + |r|]
      && (forall i :: 0 <= i < k ==> s[i] == c)
      && (forall i :: k + |r| <= i < |s| ==> s[i] == c)
  {
    TrimRight(TrimLeft(s, c), c)
  }

  /** True when every character of `s` is `c`. */
  predicate AllChar(s: string, c: char)
  {
    forall i :: 0 <= i < |s| ==> s[i] == c
  }

  lemma {:induction false} TrimLeftPadded(lead: string, r: string, c: char)
    requires AllChar(lead, c)
    requires r == [] || r[0] != c
    ensures TrimLeft(lead + r, c) == r
    decreases |lead|
  {
    if |lead| == 0 {
      assert lead + r == r;
    } else {
      assert (lead + r)[1..] == lead[1..] + r;
      TrimLeftPadded(lead[1..], r, c);
    }
  }

  lemma {:induction false} TrimRightPadded(r: string, trail: string, c: char)
    requires AllChar(trail, c)
    requires r == [] || r[|r| - 1] != c
    ensures TrimRight(r + trail, c) == r
    decreases |trail|
  {
    if |trail| == 0 {
      assert r + trail == r;
    } else {
      var t := r + trail;
      assert t[..|t| - 1] == r + trail[..|trail| - 1];
      TrimRightPadded(r, trail[..|trail| - 1], c);
    }
  }

  /** Trim is exactly the inverse of padding with `c` on both sides: it
      removes the padding and nothing of a core that neither starts nor
      ends with `c`. */
  lemma TrimOfPadded(lead: string, r: string, trail: string, c: char)
    requires AllChar(lead, c) && AllChar(trail, c)
    requires r == [] || (r[0] != c && r[|r| - 1] != c)
    ensures Trim(lead + r + trail, c) == r
  {
    if r == [] {
      assert lead + r + trail == lead + trail;
      assert AllChar(lead + trail, c);
      TrimLeftPadded(lead + trail, [], c);
      assert lead + trail + [] == lead + trail;
    } else {
      assert lead + r + trail == lead + (r + trail);
      TrimLeftPadded(lead, r + trail, c);
      TrimRightPadded(r, trail, c);
    }
  }

  /** Trimming `c` from `c` followed by a string that neither starts nor
      ends with `c` gives that string. */
  lemma TrimOfLeading(r: string, c: char)
    requires r == [] || (r[0] != c && r[|r| - 1] != c)
    ensures Trim([c] + r, c) == r
  {
    assert AllChar([c], c) && AllChar([], c);
    TrimOfPadded([c], r, [], c);
    assert [c] + r + [] == [c] + r;
  }

  /** strings.Join(parts, string(sep)). */
  function JoinWith(parts: seq<string>, sep: char): string
  {
    if |parts| == 0 then ""
    else if |parts| == 1 then parts[0]
    else parts[0] + [sep] + JoinWith(parts[1..], sep)
  }

  /** A join starts with its first piece and ends with its last one, each
      set off by a separator when there are two pieces or more. */
  lemma {:induction false} JoinWithEnds(parts: seq<string>, sep: char)
    requires |parts| >= 1
    ensures parts[0] <= JoinWith(parts, sep)
    ensures HasSuffix(JoinWith(parts, sep), parts[|parts| - 1])
    ensures |parts| >= 2 ==> parts[0] + [sep] <= JoinWith(parts, sep)
    ensures |parts| >= 2 ==> HasSuffix(JoinWith(parts, sep), [sep] + parts[|parts| - 1])
    decreases |parts|
  {
    if |parts| > 1 {
      var tail := JoinWith(parts[1..], sep);
      var last := parts[|parts| - 1];
      var whole := parts[0] + [sep] + tail;
      assert parts[1..][|parts[1..]| - 1] == last;
      JoinWithEnds(parts[1..], sep);
      if |parts| == 2 {
        assert tail == last;
        assert whole[|whole| - |last| - 1..] == [sep] + last;
      } else {
        assert whole[|whole| - |last| - 1..] == tail[|tail| - |last| - 1..];
      }
      assert whole[|whole| - |last|..] == tail[|tail| - |last|..];
    }
  }

  /** A join whose first and last pieces are non-empty and free of `sep`
      neither starts nor ends with `sep`. */
  lemma JoinWithUnpadded(parts: seq<string>, sep: char)
    requires |parts| >= 1 && parts[0] != [] && parts[|parts| - 1] != []
    requires sep !in parts[0] && sep !in parts[|parts| - 1]
    ensures var s := JoinWith(parts, sep); s != [] && s[0] != sep && s[|s| - 1] != sep
  {
    var s := JoinWith(parts, sep);
    var first, last := parts[0], parts[|parts| - 1];
    JoinWithEnds(parts, sep);
    assert s[0] == first[0];
    assert s[|s| - 1] == last[|last| - 1];
  }

  /** Splitting a string that has had `sep` trimmed from both ends gives
      non-empty first and last pieces when there are two or more. */
  lemma SplitOfTrimmed(s: string, sep: char)
    ensures var parts := Split(Trim(s, sep), sep);
      |parts| >= 2 ==> parts[0] != "" && parts[|parts| - 1] != ""
  {
    var t := Trim(s, sep);
    var parts := Split(t, sep);
    if |parts| >= 2 {
      JoinWithEnds(parts, sep);
      var last := parts[|parts| - 1];
      assert t[|t| - |last| - 1] == sep;
    }
  }

  /** strings.Split(s, string(sep)): the pieces between the separators.
      There is always at least one piece (Split of "" is [""]), empty pieces
      are kept, and joining the pieces with `sep` gives `s` back. */
  function Split(s: string, sep: char): (parts: seq<string>)
    ensures |parts| >= 1
    ensures forall i :: 0 <= i < |parts| ==> sep !in parts[i]
    ensures JoinWith(parts, sep) == s
    ensures |parts| == 1 <==> sep !in s
    decreases |s|
  {
    var i := Index(s, sep);
    if i < 0 then [s]
    else
      var head, rest := s[..i], Split(s[i + 1..], sep);
      var parts := [head] + rest;
      assert s == head + [sep] + s[i + 1..];
      assert parts[1..] == rest;
      assert JoinWith(parts, sep) == head + [sep] + JoinWith(rest, sep);
      parts
  }

  /** Split undoes Join on any non-empty list of pieces free of `sep`. */
  lemma {:induction false} SplitJoin(parts: seq<string>, sep: char)
    requires |parts| >= 1
    requires forall i :: 0 <= i < |parts| ==> sep !in parts[i]
    ensures Split(JoinWith(parts, sep), sep) == parts
    decreases |parts|
  {
    if |parts| > 1 {
      var s := JoinWith(parts, sep);
      var p := parts[0];
      var tail := JoinWith(parts[1..], sep);
      assert s == p + [sep] + tail;
      var i := Index(s, sep);
      assert s[|p|] == sep;
      assert forall k :: 0 <= k < |p| ==> s[k] == p[k];
      assert i == |p|;
      assert s[..i] == p;
      assert s[i + 1..] == tail;
      SplitJoin(parts[1..], sep);
      assert parts == [p] + parts[1..];
    }
  }

  /** strings.HasSuffix(s, suffix). */
  predicate HasSuffix(s: string, suffix: string)
  {
    |suffix| <= |s| && s[|s| - |suffix|..] == suffix
  }

  /** strings.TrimSuffix(s, suffix): removes one copy of `suffix` if `s`
      ends with it, and otherwise leaves `s` alone. */
  function TrimSuffix(s: string, suffix: string): (r: string)
    ensures HasSuffix(s, suffix) ==> r + suffix == s
    ensures !HasSuffix(s, suffix) ==> r == s
  {
    if HasSuffix(s, suffix) then s[..|s| - |suffix|] else s
  }

  /** TrimSuffix undoes appending the suffix, and removes only one copy. */
  lemma TrimSuffixOfAppended(r: string, suffix: string)
    ensures TrimSuffix(r + suffix, suffix) == r
  {
    assert (r + suffix)[|r|..] == suffix;
    assert (r + suffix)[..|r|] == r;
  }

  /** ASCII lower-casing of one character. */
  function LowerAscii(ch: char): char
  {
    if 'A' <= ch <= 'Z' then (ch as int + 32) as char else ch
  }

  /** ASCII lower-casing of a whole string. */
  function Lowered(s: string): (r: string)
    ensures |r| == |s|
    ensures forall i :: 0 <= i < |s| ==> r[i] == LowerAscii(s[i])
  {
    seq(|s|, i requires 0 <= i < |s| => LowerAscii(s[i]))
  }

  /** strings.EqualFold restricted to ASCII letters: walks both strings
      together and compares the characters after folding upper case onto
      lower case. */
  predicate EqualFold(a: string, b: string)
    decreases |a|
  {
    |a| == |b| && (|a| == 0 || (LowerAscii(a[0]) == LowerAscii(b[0]) && EqualFold(a[1..], b[1..])))
  }

  /** EqualFold agrees with comparing the lower-cased strings. */
  lemma {:induction false} EqualFoldIsLoweredEquality(a: string, b: string)
    ensures EqualFold(a, b) <==> Lowered(a) == Lowered(b)
    decreases |a|
  {
    if |a| == |b| && |a| > 0 {
      EqualFoldIsLoweredEquality(a[1..], b[1..]);
      assert Lowered(a) == [LowerAscii(a[0])] + Lowered(a[1..]);
      assert Lowered(b) == [LowerAscii(b[0])] + Lowered(b[1..]);
      if Lowered(a) == Lowered(b) {
        assert Lowered(a)[1..] == Lowered(a[1..]);
        assert Lowered(b)[1..] == Lowered(b[1..]);
      }
    } else if |a| != |b| {
      assert |Lowered(a)| != |Lowered(b)|;
    }
  }
}
