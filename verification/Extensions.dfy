/** Looking an extension up in the space-separated list a device reports (src/utils.cpp:79-95). */
module Extensions {

  predicate OccursAt(text: string, word: string, pos: nat) {
    pos + |word| <= |text| && text[pos..pos + |word|] == word
  }

  /** The occurrence is bounded by spaces or by the ends of the text. */
  predicate Delimited(text: string, word: string, pos: nat)
    requires OccursAt(text, word, pos)
  {
    && (pos == 0 || text[pos - 1] == ' ')
    && (pos + |word| == |text| || text[pos + |word|] == ' ')
  }

  datatype Position = At(pos: nat) | NoPosition

  /** The first occurrence from a position on, as std::string::find gives it. */
  method Find(text: string, word: string, from: nat) returns (r: Position)
    ensures r.At? ==> from <= r.pos && OccursAt(text, word, r.pos)
                      && forall i: nat | from <= i < r.pos :: !OccursAt(text, word, i)
    ensures r.NoPosition? ==> forall i: nat | from <= i :: !OccursAt(text, word, i)
  {
    var pos := from;
    while pos + |word| <= |text|
      invariant from <= pos
      invariant forall i: nat | from <= i < pos :: !OccursAt(text, word, i)
      decreases |text| - pos
    {
      if text[pos..pos + |word|] == word {
        return At(pos);
      }
      pos := pos + 1;
    }
    return NoPosition;
  }

  /** The words of the text, where every space ends one. */
  function Words(text: string): (words: seq<string>)
    ensures |words| > 0
    decreases |text|
  {
    var k := FirstSpace(text);
    if k == |text| then [text] else [text[..k]] + Words(text[k + 1..])
  }

  function FirstSpace(text: string): (k: nat)
    ensures k <= |text| && (k < |text| ==> text[k] == ' ')
    ensures forall i | 0 <= i < k :: text[i] != ' '
  {
    if text == "" || text[0] == ' ' then 0 else 1 + FirstSpace(text[1..])
  }

  predicate WordAt(text: string, word: string, pos: nat) {
    OccursAt(text, word, pos) && Delimited(text, word, pos)
  }

  ghost predicate Found(text: string, word: string) {
    exists pos: nat :: WordAt(text, word, pos)
  }

  /** A text without spaces is one word. */
  lemma FoundInWord(text: string, word: string)
    requires ' ' !in word && FirstSpace(text) == |text|
    ensures Found(text, word) <==> word == text
  {
    if pos: nat :| WordAt(text, word, pos) {
      assert text[pos..pos + |word|] == text;
    }
    if word == text {
      assert WordAt(text, word, 0);
    }
  }

  /** Occurrences past the first space are those of the rest. */
  lemma ShiftedOccurrence(text: string, word: string, start: nat, pos: nat)
    requires 0 < start <= |text| && text[start - 1] == ' '
    ensures WordAt(text, word, start + pos) <==> WordAt(text[start..], word, pos)
  {
    if start + pos + |word| <= |text| {
      assert text[start..][pos..pos + |word|] == text[start + pos..start + pos + |word|];
    }
  }

  lemma OccurrenceAtStart(text: string, word: string)
    requires ' ' !in word && FirstSpace(text) < |text|
    ensures WordAt(text, word, 0) <==> word == text[..FirstSpace(text)]
  {
    if OccursAt(text, word, 0) {
      assert forall i | 0 <= i < |word| :: word[i] == text[i];
    }
  }

  /** A word of a longer text is what comes before the first space, or a word of the rest. */
  lemma FoundInParts(text: string, word: string)
    requires ' ' !in word && FirstSpace(text) < |text|
    ensures Found(text, word) <==> word == text[..FirstSpace(text)] || Found(text[FirstSpace(text) + 1..], word)
  {
    hide WordAt, FirstSpace;
    var start := FirstSpace(text) + 1;
    OccurrenceAtStart(text, word);
    if pos: nat :| WordAt(text, word, pos) {
      LaterOccurrence(text, word, start, pos);
    }
    if pos: nat :| WordAt(text[start..], word, pos) {
      ShiftedOccurrence(text, word, start, pos);
    }
  }

  lemma LaterOccurrence(text: string, word: string, start: nat, pos: nat)
    requires start == FirstSpace(text) + 1 <= |text| && WordAt(text, word, pos)
    ensures pos == 0 || Found(text[start..], word)
  {
    hide FirstSpace;
    if pos > 0 {
      assert text[pos - 1] == ' ';
      ShiftedOccurrence(text, word, start, pos - start);
    }
  }

  /** A delimited occurrence is a whole word. */
  lemma {:induction false} FoundExactly(text: string, word: string)
    requires ' ' !in word
    ensures Found(text, word) <==> word in Words(text)
    decreases |text|
  {
    hide Found;
    var k := FirstSpace(text);
    if k == |text| {
      FoundInWord(text, word);
    } else {
      FoundInParts(text, word);
      FoundExactly(text[k + 1..], word);
    }
  }

  /** True exactly when the extension is one of the reported words, not merely part of one. */
  method DeviceHasExtension(extensions: string, extension: string) returns (found: bool)
    ensures found <==> Found(extensions, extension)
    ensures ' ' !in extension ==> (found <==> extension in Words(extensions))
  {
    var pos := Find(extensions, extension, 0);
    found := false;
    ghost var next: nat := 0;
    while pos.At?
      invariant !found
      invariant forall i: nat | i < next :: !WordAt(extensions, extension, i)
      invariant pos.At? ==> next <= pos.pos && OccursAt(extensions, extension, pos.pos)
                            && forall i: nat | next <= i < pos.pos :: !OccursAt(extensions, extension, i)
      invariant pos.NoPosition? ==> forall i: nat | next <= i :: !OccursAt(extensions, extension, i)
      decreases if pos.At? then |extensions| + 1 - pos.pos else 0
    {
      if (pos.pos == 0 || extensions[pos.pos - 1] == ' ')
        && (pos.pos + |extension| == |extensions| || extensions[pos.pos + |extension|] == ' ')
      {
        assert WordAt(extensions, extension, pos.pos);
        found := true;
        break;
      }
      next := pos.pos + 1;
      pos := Find(extensions, extension, pos.pos + 1);
    }
    assert !found ==> forall i: nat :: !WordAt(extensions, extension, i);
    if ' ' !in extension {
      FoundExactly(extensions, extension);
    }
  }
}
