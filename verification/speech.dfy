/** Click-to-speak: the guard in `speakText`, the trimming the click
    handler applies before calling it, and the speech engine's queue as
    far as `cancel` and `speak` affect it. */
module Speech {
  import opened Options

  /** A `SpeechSynthesisUtterance` as configured by `speakText`. */
  datatype Utterance = Utterance(text: string, rate: int, pitch: int)

  /** A call on `window.speechSynthesis`. */
  datatype SpeechCall = Cancel | Speak(utterance: Utterance)

  /** The rate and pitch `speakText` sets on every utterance. */
  const DefaultRate: int := 1
  const DefaultPitch: int := 1

  /** The characters `String.prototype.trim` strips: the WhiteSpace and
      LineTerminator code points of ECMAScript (sections 12.2 and 12.3 of
      ECMA-262), with the Space_Separator category written out. */
  const TrimmableChars: set<char> := {
    '\t', '\U{000B}', '\U{000C}', ' ', '\U{00A0}', '\U{FEFF}',
    '\n', '\r', '\U{2028}', '\U{2029}',
    '\U{1680}', '\U{2000}', '\U{2001}', '\U{2002}', '\U{2003}', '\U{2004}',
    '\U{2005}', '\U{2006}', '\U{2007}', '\U{2008}', '\U{2009}', '\U{200A}',
    '\U{202F}', '\U{205F}', '\U{3000}'
  }

  predicate IsTrimmable(c: char) {
    c in TrimmableChars
  }

  /** Every character of `s` is stripped by trimming. */
  predicate Blank(s: string) {
    forall i :: 0 <= i < |s| ==> IsTrimmable(s[i])
  }

  /** `s` without its leading trimmable characters. */
  function TrimStart(s: string): (r: string)
    ensures |r| <= |s| && r == s[|s| - |r|..]
    ensures Blank(s[..|s| - |r|])
    ensures r != [] ==> !IsTrimmable(r[0])
    decreases |s|
  {
    if s != [] && IsTrimmable(s[0]) then
      var r := TrimStart(s[1..]);
      assert s[1..][..|s| - 1 - |r|] == s[1..|s| - |r|];
      assert s[..|s| - |r|] == [s[0]] + s[1..|s| - |r|];
      r
    else s
  }

  /** `s` without its trailing trimmable characters. */
  function TrimEnd(s: string): (r: string)
    ensures |r| <= |s| && r == s[..|r|]
    ensures Blank(s[|r|..])
    ensures r != [] ==> !IsTrimmable(r[|r| - 1])
    decreases |s|
  {
    if s != [] && IsTrimmable(s[|s| - 1]) then
      var r := TrimEnd(s[..|s| - 1]);
      assert s[..|s| - 1][|r|..] == s[|r|..|s| - 1];
      assert s[|r|..] == s[|r|..|s| - 1] + [s[|s| - 1]];
      r
    else s
  }

  /** `text.trim()`: the part of `text` between its leading and trailing
      trimmable characters. */
  function Trim(s: string): (r: string)
    ensures |r| <= |s|
    ensures r != [] ==> !IsTrimmable(r[0]) && !IsTrimmable(r[|r| - 1])
  {
    TrimEnd(TrimStart(s))
  }

  /** What trimming removes is exactly a trimmable prefix and a trimmable
      suffix: the result is the rest of the text, in place. */
  lemma TrimRemovesOnlyTrimmableEnds(s: string)
    ensures exists lo :: && 0 <= lo <= lo + |Trim(s)| <= |s|
                         && Trim(s) == s[lo..lo + |Trim(s)|]
                         && Blank(s[..lo])
                         && Blank(s[lo + |Trim(s)|..])
  {
    var t := TrimStart(s);
    var r := TrimEnd(t);
    var lo := |s| - |t|;
    assert s[lo..lo + |r|] == r;
    assert s[..lo] == s[..|s| - |t|];
    assert Blank(s[..lo]);
    assert s[lo + |r|..] == t[|r|..];
    assert Blank(s[lo + |r|..]);
  }

  /** A text trims to nothing exactly when it is all whitespace. */
  lemma TrimEmptyIffBlank(s: string)
    ensures Trim(s) == "" <==> Blank(s)
  {
  }

  /** `speakText(text)`: nothing for an empty text; otherwise cancel what
      is being said, then speak the text at the default rate and pitch. */
  function SpeakText(text: string): (calls: seq<SpeechCall>)
    ensures text == "" ==> calls == []
    ensures text != "" ==> |calls| == 2 && calls[0] == Cancel && calls[1].Speak?
    ensures forall i :: 0 <= i < |calls| && calls[i].Speak? ==>
      calls[i].utterance == Utterance(text, DefaultRate, DefaultPitch)
  {
    if text == "" then []
    else [Cancel, Speak(Utterance(text, DefaultRate, DefaultPitch))]
  }

  /** The engine's queue of pending utterances after a call: `cancel`
      empties it, `speak` appends. */
  function Perform(queue: seq<Utterance>, call: SpeechCall): seq<Utterance> {
    match call
    case Cancel => []
    case Speak(u) => queue + [u]
  }

  /** The queue after a trace of calls, in order. */
  function PerformAll(queue: seq<Utterance>, calls: seq<SpeechCall>): seq<Utterance>
    decreases |calls|
  {
    if calls == [] then queue else PerformAll(Perform(queue, calls[0]), calls[1..])
  }

  /** Whatever was queued, the calls `speakText` makes leave exactly its
      text queued, or leave the queue alone when the text is empty. */
  lemma SpeakTextReplacesQueue(queue: seq<Utterance>, text: string)
    ensures text == "" ==> PerformAll(queue, SpeakText(text)) == queue
    ensures text != "" ==> PerformAll(queue, SpeakText(text)) == [Utterance(text, DefaultRate, DefaultPitch)]
  {
    var calls := SpeakText(text);
    if text != "" {
      assert PerformAll(queue, calls) == PerformAll([], calls[1..]);
      assert calls[1..][1..] == [];
    }
  }

  /** The click handler: trim the element's text and pass it to `speakText`. */
  function ClickText(queue: seq<Utterance>, text: string): (r: seq<Utterance>)
    ensures Blank(text) ==> r == queue
    ensures !Blank(text) ==> r == [Utterance(Trim(text), DefaultRate, DefaultPitch)]
  {
    TrimEmptyIffBlank(text);
    SpeakTextReplacesQueue(queue, Trim(text));
    PerformAll(queue, SpeakText(Trim(text)))
  }

  /** Clicks on elements with the given texts, in order. */
  function ClickTexts(queue: seq<Utterance>, texts: seq<string>): seq<Utterance>
    decreases |texts|
  {
    if texts == [] then queue else ClickTexts(ClickText(queue, texts[0]), texts[1..])
  }

  /** The position of the last click whose text is not blank. */
  function LastSpoken(texts: seq<string>): (r: Option<nat>)
    ensures r.None? <==> forall k :: 0 <= k < |texts| ==> Blank(texts[k])
    ensures r.Some? ==> && r.value < |texts|
                        && !Blank(texts[r.value])
                        && forall j :: r.value < j < |texts| ==> Blank(texts[j])
    decreases |texts|
  {
    if texts == [] then None
    else if !Blank(texts[|texts| - 1]) then Some(|texts| - 1)
    else
      var init := texts[..|texts| - 1];
      assert forall k :: 0 <= k < |init| ==> init[k] == texts[k];
      LastSpoken(init)
  }

  /** Folding the clicks in two pieces is folding them whole. */
  lemma {:induction false} ClickTextsAppend(queue: seq<Utterance>, a: seq<string>, b: seq<string>)
    ensures ClickTexts(queue, a + b) == ClickTexts(ClickTexts(queue, a), b)
    decreases |a|
  {
    if a != [] {
      assert (a + b)[1..] == a[1..] + b;
      ClickTextsAppend(ClickText(queue, a[0]), a[1..], b);
    } else {
      assert a + b == b;
    }
  }

  /** The clicks with one more at the end: a non-blank last click is the
      last one spoken, and a blank one leaves the earlier answer. */
  lemma LastSpokenSnoc(texts: seq<string>, t: string)
    ensures LastSpoken(texts + [t]) == if Blank(t) then LastSpoken(texts) else Some(|texts|)
  {
  }

  /** The latest request wins: after any clicks, the engine holds only the
      last non-blank text, and clicks on blank text leave it untouched. */
  lemma {:induction false} LatestRequestWins(queue: seq<Utterance>, texts: seq<string>)
    ensures LastSpoken(texts).None? ==> ClickTexts(queue, texts) == queue
    ensures LastSpoken(texts).Some? ==>
      ClickTexts(queue, texts) == [Utterance(Trim(texts[LastSpoken(texts).value]), DefaultRate, DefaultPitch)]
    decreases |texts|
  {
    if texts != [] {
      var init := texts[..|texts| - 1];
      var t := texts[|texts| - 1];
      assert texts == init + [t];
      ClickTextsAppend(queue, init, [t]);
      LatestRequestWins(queue, init);
      LastSpokenSnoc(init, t);
      var q := ClickTexts(queue, init);
      assert ClickTexts(q, [t]) == ClickText(q, t);
      if !Blank(t) {
        assert texts[|init|] == t;
      } else if LastSpoken(init).Some? {
        assert texts[LastSpoken(init).value] == init[LastSpoken(init).value];
      }
    }
  }

  /** At most one utterance is ever pending once any has been requested. */
  lemma AtMostOnePending(queue: seq<Utterance>, texts: seq<string>)
    requires |queue| <= 1
    ensures |ClickTexts(queue, texts)| <= 1
  {
    LatestRequestWins(queue, texts);
  }
}
