/**
 * The to-do rule (`ToDoValidator`): script comments that start with a to-do
 * marker or mention a merge. The comment pattern
 * `(^(todo|fixme|to do|fix me))|(^|\s)merge`, matched ignoring case, is
 * written out as a predicate over the comment.
 */
module ToDo {
  import opened Wrappers
  import opened Text
  import opened Esp

  datatype Finding =
    | ScriptComment(script: string, comment: string)
    | InfoComment(info: string, topic: string, comment: string)

  /** `s` holds the lower-case `word` at position `i`, ignoring ASCII case. */
  predicate WordAt(s: string, word: string, i: int) {
    0 <= i && i + |word| <= |s| && Lower(s[i..i + |word|]) == word
  }

  /** The first alternative: a marker at the very start of the comment. */
  predicate StartsWithMarker(s: string) {
    WordAt(s, "todo", 0) || WordAt(s, "fixme", 0) || WordAt(s, "to do", 0) || WordAt(s, "fix me", 0)
  }

  /** The second alternative: "merge" at the start or right after whitespace. */
  predicate MergeAt(s: string, i: int) {
    WordAt(s, "merge", i) && (i == 0 || IsWhitespace(s[i - 1]))
  }

  /** Whether the comment pattern matches somewhere in `s`. */
  predicate IsToDoComment(s: string) {
    StartsWithMarker(s) || exists i :: 0 <= i <= |s| && MergeAt(s, i)
  }

  /** One step of a case-insensitive comparison: the first character, then the rest. */
  lemma WordAtStep(s: string, word: string, i: int)
    requires 0 <= i < |s| && word != []
    ensures WordAt(s, word, i) <==> ToAsciiLower(s[i]) == word[0] && WordAt(s, word[1..], i + 1)
  {
    if i + |word| <= |s| {
      var x := s[i..i + |word|];
      assert x == [s[i]] + s[i + 1..i + |word|];
      assert Lower(x) == [ToAsciiLower(s[i])] + Lower(s[i + 1..i + |word|]);
    }
  }

  /** The comparison as a matcher performs it, one character at a time. */
  function MatchesAt(s: string, i: nat, word: string): (b: bool)
    requires i <= |s|
    ensures b <==> WordAt(s, word, i)
    decreases |word|
  {
    if word == [] then
      assert Lower(s[i..i]) == [];
      true
    else if i == |s| then false
    else
      WordAtStep(s, word, i);
      ToAsciiLower(s[i]) == word[0] && MatchesAt(s, i + 1, word[1..])
  }

  /** The search: the anchored markers first, then every position for "merge". */
  method IsMatch(s: string) returns (b: bool)
    ensures b <==> IsToDoComment(s)
  {
    if MatchesAt(s, 0, "todo") || MatchesAt(s, 0, "fixme") || MatchesAt(s, 0, "to do") || MatchesAt(s, 0, "fix me") {
      return true;
    }
    var i := 0;
    while i < |s|
      invariant 0 <= i <= |s|
      invariant forall j :: 0 <= j < i ==> !MergeAt(s, j)
    {
      if (i == 0 || IsWhitespace(s[i - 1])) && MatchesAt(s, i, "merge") {
        assert MergeAt(s, i);
        return true;
      }
      i := i + 1;
    }
    assert !WordAt(s, "merge", |s|);
    return false;
  }

  /** A word can only be present where its first letter is. */
  lemma NoWordWithoutFirstLetter(s: string, word: string, i: int)
    requires word != [] && WordAt(s, word, i)
    ensures ToAsciiLower(s[i]) == word[0]
  {
    assert Lower(s[i..i + |word|])[0] == word[0];
  }

  /** A comment with no 'm' in either case never mentions a merge. */
  lemma NoMergeWithoutM(s: string)
    requires forall k :: 0 <= k < |s| ==> ToAsciiLower(s[k]) != 'm'
    ensures forall i :: !MergeAt(s, i)
  {
    forall i | MergeAt(s, i) ensures false {
      NoWordWithoutFirstLetter(s, "merge", i);
    }
  }

  /** A comment whose first character is neither 't' nor 'f' in either case
      has no marker at its start. */
  lemma NoMarkerWithoutLeadingLetter(s: string)
    requires s == [] || (ToAsciiLower(s[0]) != 't' && ToAsciiLower(s[0]) != 'f')
    ensures !StartsWithMarker(s)
  {
    if s != [] {
      if WordAt(s, "todo", 0) { NoWordWithoutFirstLetter(s, "todo", 0); }
      if WordAt(s, "fixme", 0) { NoWordWithoutFirstLetter(s, "fixme", 0); }
      if WordAt(s, "to do", 0) { NoWordWithoutFirstLetter(s, "to do", 0); }
      if WordAt(s, "fix me", 0) { NoWordWithoutFirstLetter(s, "fix me", 0); }
    }
  }

  /** Comments the pattern matches, in any case. */
  lemma MatchingExamples()
    ensures IsToDoComment("TODO: fix")
    ensures IsToDoComment("Fix me later")
    ensures IsToDoComment("Merge conflict here")
    ensures IsToDoComment("x merge")
  {
    assert Lower("TODO") == "todo";
    assert WordAt("TODO: fix", "todo", 0) by { assert "TODO: fix"[0..4] == "TODO"; }
    assert Lower("Fix me") == "fix me";
    assert WordAt("Fix me later", "fix me", 0) by { assert "Fix me later"[0..6] == "Fix me"; }
    assert Lower("Merge") == "merge";
    assert MergeAt("Merge conflict here", 0) by { assert "Merge conflict here"[0..5] == "Merge"; }
    assert MergeAt("x merge", 2) by { assert "x merge"[2..7] == "merge"; }
  }

  /** Comments it does not match: a marker later than the start, "merge"
      inside a word, and a marker after a leading space. */
  lemma NonMatchingExamples()
    ensures !IsToDoComment("undertodo")
    ensures !IsToDoComment("Amerge")
    ensures !IsToDoComment(" TODO")
  {
    NoMarkerWithoutLeadingLetter("undertodo");
    NoMergeWithoutM("undertodo");
    NoMarkerWithoutLeadingLetter("Amerge");
    forall i | MergeAt("Amerge", i) ensures false {
      NoWordWithoutFirstLetter("Amerge", "merge", i);
    }
    NoMarkerWithoutLeadingLetter(" TODO");
    NoMergeWithoutM(" TODO");
  }

  /** The rule's script-line hook: a matching comment is reported against the
      script, or against the info and the topic in force; the code part of
      the line is not consulted. */
  function OnScriptLine(record: Record, code: string, comment: string, topic: Dialogue): (f: Option<Finding>)
    ensures f.Some? <==> IsToDoComment(comment) && (record.Script? || record.Info?)
    ensures f.Some? && record.Script? ==> f.value == ScriptComment(record.id, comment)
    ensures f.Some? && record.Info? ==> f.value == InfoComment(record.info.id, topic.id, comment)
  {
    if IsToDoComment(comment) then
      if record.Script? then Some(ScriptComment(record.id, comment))
      else if record.Info? then Some(InfoComment(record.info.id, topic.id, comment))
      else None
    else None
  }
}
