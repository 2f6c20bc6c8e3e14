/** Model of Go's filepath.Join on a '/'-separated file system. Join skips
    the empty elements and puts one separator between the others; the final
    lexical Clean that Go applies (collapsing '.', '..' and repeated
    separators) is not modelled, so the model is exact for elements that
    contain no '/' and are neither "." nor "..". */
module FilePath {
  import GoStrings

  const Separator: char := '/'

  /** The elements Join keeps: the non-empty ones, in their order. */
  function NonEmpty(elems: seq<string>): (r: seq<string>)
    ensures |r| <= |elems|
    ensures forall i :: 0 <= i < |r| ==> r[i] != "" && r[i] in elems
    ensures r == [] <==> forall i :: 0 <= i < |elems| ==> elems[i] == ""
  {
    if |elems| == 0 then []
    else if elems[0] == "" then NonEmpty(elems[1..])
    else [elems[0]] + NonEmpty(elems[1..])
  }

  /** filepath.Join(elems...): the result is empty exactly when every
      element is empty. */
  function Join(elems: seq<string>): (r: string)
    ensures r == "" <==> forall i :: 0 <= i < |elems| ==> elems[i] == ""
  {
    if |elems| == 0 then ""
    else if elems[0] == "" then Join(elems[1..])
    else
      var rest := Join(elems[1..]);
      if rest == "" then elems[0] else elems[0] + [Separator] + rest
  }

  /** Join is strings.Join with the separator over the non-empty elements. */
  lemma {:induction false} JoinIsJoinOfNonEmpty(elems: seq<string>)
    ensures Join(elems) == GoStrings.JoinWith(NonEmpty(elems), Separator)
    decreases |elems|
  {
    if |elems| > 0 {
      JoinIsJoinOfNonEmpty(elems[1..]);
      if elems[0] != "" {
        var tail := NonEmpty(elems[1..]);
        assert ([elems[0]] + tail)[1..] == tail;
      }
    }
  }

  /** When no element is empty, Join is strings.Join with the separator. */
  lemma {:induction false} JoinOfNonEmpty(elems: seq<string>)
    requires forall i :: 0 <= i < |elems| ==> elems[i] != ""
    ensures NonEmpty(elems) == elems
    ensures Join(elems) == GoStrings.JoinWith(elems, Separator)
    decreases |elems|
  {
    if |elems| > 0 {
      JoinOfNonEmpty(elems[1..]);
      assert elems == [elems[0]] + elems[1..];
    }
    JoinIsJoinOfNonEmpty(elems);
  }

  /** Splitting a joined path at the separator gives back exactly the
      non-empty elements, in order. */
  lemma JoinSplitsBack(elems: seq<string>)
    requires forall i :: 0 <= i < |elems| ==> Separator !in elems[i]
    requires exists i :: 0 <= i < |elems| && elems[i] != ""
    ensures GoStrings.Split(Join(elems), Separator) == NonEmpty(elems)
  {
    JoinIsJoinOfNonEmpty(elems);
    GoStrings.SplitJoin(NonEmpty(elems), Separator);
  }

  /** Joining a directory with a non-empty relative path puts exactly one
      separator between them, or gives the relative path when the directory
      is empty. */
  lemma JoinTwo(dir: string, rel: string)
    requires rel != ""
    ensures Join([dir, rel]) == if dir == "" then rel else dir + [Separator] + rel
  {
    assert [dir, rel][1..] == [rel];
    assert [rel][1..] == [];
  }
}
