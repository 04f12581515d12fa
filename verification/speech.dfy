/** The tribunal read-aloud pipeline of `speakTribunalMessage`: strip bold
    markers, cut the transcript into `[Speaker] content` segments, give each
    persona its pitch and rate, choose one Spanish non-female voice, and
    queue one utterance per audible segment. The result is the list of
    commands handed to the browser's speech engine, in order. */
module Speech {
  import opened Prelude
  import opened Strings

  // ---------------------------------------------------------------------
  // Markdown stripping

  /** No two adjacent asterisks. */
  predicate NoBold(s: string) {
    forall i :: 0 <= i < |s| - 1 ==> !(s[i] == '*' && s[i + 1] == '*')
  }

  // `text.replace(/\*\*/g, '')`: every `**` deleted, matching left to
  // right without overlap, so a run of n asterisks keeps n mod 2.
  function RemoveBold(s: string): (r: string)
    ensures |r| <= |s|
  {
    if |s| >= 2 && s[0] == '*' && s[1] == '*' then RemoveBold(s[2..])
    else if |s| == 0 then ""
    else [s[0]] + RemoveBold(s[1..])
  }

  /** After bold removal no `**` is left, and a text that does not start
      with an asterisk keeps its first character. */
  lemma {:induction false} RemoveBoldNoBold(s: string)
    ensures NoBold(RemoveBold(s))
    ensures |s| > 0 && s[0] != '*' ==> |RemoveBold(s)| > 0 && RemoveBold(s)[0] == s[0]
    decreases |s|
  {
    if |s| >= 2 && s[0] == '*' && s[1] == '*' {
      RemoveBoldNoBold(s[2..]);
    } else if |s| > 0 {
      var rest := RemoveBold(s[1..]);
      RemoveBoldNoBold(s[1..]);
      var r := [s[0]] + rest;
      assert RemoveBold(s) == r;
      forall i | 0 <= i < |r| - 1
        ensures !(r[i] == '*' && r[i + 1] == '*')
      {
        if i > 0 {
          assert r[i] == rest[i - 1] && r[i + 1] == rest[i];
        } else if s[0] == '*' {
          assert |s| >= 2 && s[1] != '*';
          assert s[1..][0] != '*';
          assert r[1] == rest[0];
        }
      }
    }
  }

  predicate IsMarkdownGlyph(c: char) {
    c == '#' || c == '_' || c == '`'
  }

  // `x.replace(/\*\*|#|_|`/g, '')`.
  function StripMarkdown(s: string): (r: string)
    ensures forall i :: 0 <= i < |r| ==> !IsMarkdownGlyph(r[i])
    ensures |r| <= |s|
  {
    if |s| >= 2 && s[0] == '*' && s[1] == '*' then StripMarkdown(s[2..])
    else if |s| == 0 then ""
    else if IsMarkdownGlyph(s[0]) then StripMarkdown(s[1..])
    else [s[0]] + StripMarkdown(s[1..])
  }

  /** A run of `n` asterisks. */
  function Stars(n: nat): (r: string)
    ensures |r| == n && forall i :: 0 <= i < n ==> r[i] == '*'
  {
    seq(n, i => '*')
  }

  /** Bold removal keeps `n % 2` of a run of `n` asterisks (the pairs are
      taken from the left) and every other character, in order: these two
      facts determine the result on any text. */
  lemma {:induction false} RemoveBoldRun(n: nat, t: string)
    requires |t| == 0 || t[0] != '*'
    ensures RemoveBold(Stars(n) + t) == Stars(n % 2) + RemoveBold(t)
    decreases n
  {
    if n >= 2 {
      StarsPair(n, t);
      RemoveBoldPair(Stars(n - 2) + t);
      RemoveBoldRun(n - 2, t);
    } else if n == 1 {
      StarsOne(t);
      assert RemoveBold(['*'] + t) == ['*'] + RemoveBold(t);
    } else {
      assert Stars(0) + t == t && Stars(0) + RemoveBold(t) == RemoveBold(t);
    }
  }

  /** A run of two or more asterisks starts with a pair. */
  lemma StarsPair(n: nat, t: string)
    requires n >= 2
    ensures Stars(n) + t == ['*', '*'] + (Stars(n - 2) + t)
    ensures Stars(n % 2) == Stars((n - 2) % 2)
  {
    assert (Stars(n) + t) == ['*', '*'] + (Stars(n - 2) + t);
  }

  lemma RemoveBoldPair(t: string)
    ensures RemoveBold(['*', '*'] + t) == RemoveBold(t)
  {
    assert (['*', '*'] + t)[2..] == t;
  }

  lemma StarsOne(t: string)
    requires |t| == 0 || t[0] != '*'
    ensures Stars(1) == ['*'] && Stars(1) + t == ['*'] + t
    ensures var u := ['*'] + t; u[1..] == t && !(|u| >= 2 && u[1] == '*')
  {
    assert Stars(1) == ['*'];
  }

  lemma RemoveBoldKeepsText(c: char, t: string)
    requires c != '*'
    ensures RemoveBold([c] + t) == [c] + RemoveBold(t)
  {
    assert ([c] + t)[1..] == t;
  }

  /** The same for the one-pass strip, which also deletes every `#`, `_`
      and backtick. */
  lemma {:induction false} StripMarkdownRun(n: nat, t: string)
    requires |t| == 0 || t[0] != '*'
    ensures StripMarkdown(Stars(n) + t) == Stars(n % 2) + StripMarkdown(t)
    decreases n
  {
    if n >= 2 {
      StarsPair(n, t);
      StripMarkdownRun(n - 2, t);
      assert (n - 2) % 2 == n % 2;
    } else if n == 1 {
      StarsOne(t);
      assert StripMarkdown(['*'] + t) == ['*'] + StripMarkdown(t);
    } else {
      assert Stars(0) + t == t && Stars(0) + StripMarkdown(t) == StripMarkdown(t);
    }
  }

  lemma StripMarkdownKeepsText(c: char, t: string)
    requires c != '*'
    ensures IsMarkdownGlyph(c) ==> StripMarkdown([c] + t) == StripMarkdown(t)
    ensures !IsMarkdownGlyph(c) ==> StripMarkdown([c] + t) == [c] + StripMarkdown(t)
  {
    assert ([c] + t)[1..] == t;
  }

  /** Deleting `#`, `_` and backticks one character at a time. */
  function DropGlyphs(s: string): string
  {
    if |s| == 0 then ""
    else if IsMarkdownGlyph(s[0]) then DropGlyphs(s[1..])
    else [s[0]] + DropGlyphs(s[1..])
  }

  /** The one-pass alternation equals removing bold markers first and the
      single glyphs afterwards: the glyphs never split or join a run of
      asterisks. */
  lemma {:induction false} StripMarkdownInTwoPasses(s: string)
    ensures StripMarkdown(s) == DropGlyphs(RemoveBold(s))
    decreases |s|
  {
    if |s| >= 2 && s[0] == '*' && s[1] == '*' {
      StripMarkdownInTwoPasses(s[2..]);
    } else if |s| > 0 {
      StripMarkdownInTwoPasses(s[1..]);
      assert RemoveBold(s) == [s[0]] + RemoveBold(s[1..]);
      assert ([s[0]] + RemoveBold(s[1..]))[1..] == RemoveBold(s[1..]);
    }
  }

  // ---------------------------------------------------------------------
  // Segmenting: the global regex  \[(.*?)\][:\s]*(.*?)(?=\[|$)  with flag s

  /** One regex match, by positions: `[` at `open`, the first `]` after it
      at `close`, the label in between, the `:`/white-space run after the
      tag, then the body `[bodyStart, bodyEnd)` up to the next `[` or the end. */
  datatype Match = Match(open: nat, close: nat, bodyStart: nat, bodyEnd: nat)

  datatype Segment = Segment(speaker: string, content: string)

  predicate IsGapChar(c: char) {
    c == ':' || IsSpace(c)
  }

  /** First index at or after `from` holding `c`, or `|s|` when there is none. */
  function FindFrom(s: string, c: char, from: nat): (r: nat)
    requires from <= |s|
    ensures from <= r <= |s|
    ensures forall i :: from <= i < r ==> s[i] != c
    ensures r < |s| ==> s[r] == c
    decreases |s| - from
  {
    if from == |s| || s[from] == c then from else FindFrom(s, c, from + 1)
  }

  /** First index at or after `from` that is not `:` or white space. */
  function SkipGap(s: string, from: nat): (r: nat)
    requires from <= |s|
    ensures from <= r <= |s|
    ensures forall i :: from <= i < r ==> IsGapChar(s[i])
    ensures r < |s| ==> !IsGapChar(s[r])
    decreases |s| - from
  {
    if from == |s| || !IsGapChar(s[from]) then from else SkipGap(s, from + 1)
  }

  /** The positions of `m` are ordered and inside `s`. */
  predicate Within(s: string, m: Match) {
    m.open < m.close < m.bodyStart <= m.bodyEnd <= |s|
  }

  /** The shape the regex demands of one match. */
  ghost predicate MatchShape(s: string, m: Match) {
    && Within(s, m)
    && s[m.open] == '[' && s[m.close] == ']'
    && (forall i :: m.open < i < m.close ==> s[i] != ']')
    && (forall i :: m.close < i < m.bodyStart ==> IsGapChar(s[i]))
    && (m.bodyStart < |s| ==> !IsGapChar(s[m.bodyStart]))
    && (forall i :: m.bodyStart <= i < m.bodyEnd ==> s[i] != '[')
    && (m.bodyEnd < |s| ==> s[m.bodyEnd] == '[')
  }

  /** No `[` at or after `from` is followed by a `]`: the regex finds no
      further match. */
  ghost predicate NoTagFrom(s: string, from: nat) {
    forall i, j :: from <= i < j < |s| && s[i] == '[' ==> s[j] != ']'
  }

  /** How the successive matches of a global search starting at `from`
      cover `s`: the first match has the regex's shape and no `[` comes
      before it, the rest tile the text from where its body stopped, and
      after the last match no tag remains. */
  ghost predicate TilesFrom(s: string, from: nat, ms: seq<Match>)
    decreases |ms|
  {
    if |ms| == 0 then NoTagFrom(s, from)
    else
      && MatchShape(s, ms[0]) && from <= ms[0].open
      && (forall i :: from <= i < ms[0].open ==> s[i] != '[')
      && TilesFrom(s, ms[0].bodyEnd, ms[1..])
  }

  /** One `regex.exec` from `lastIndex = from`: the first `[` at or after
      `from`, the first `]` after it, the greedy `:`/white-space run, and
      the body up to the next `[` or the end. */
  function NextMatch(s: string, from: nat): (r: Option<Match>)
    requires from <= |s|
    ensures r.None? ==> NoTagFrom(s, from)
    ensures r.Some? ==>
      && MatchShape(s, r.value) && from <= r.value.open
      && forall i :: from <= i < r.value.open ==> s[i] != '['
  {
    var o := FindFrom(s, '[', from);
    if o == |s| then None
    else
      var c := FindFrom(s, ']', o + 1);
      if c == |s| then
        assert forall i :: o < i < |s| ==> s[i] != ']';
        None
      else
        var b := SkipGap(s, c + 1);
        Some(Match(o, c, b, FindFrom(s, '[', b)))
  }

  /** The successive `regex.exec` results from `from` on. */
  function ScanFrom(s: string, from: nat): (ms: seq<Match>)
    requires from <= |s|
    ensures forall k :: 0 <= k < |ms| ==> from <= ms[k].open && Within(s, ms[k])
    decreases |s| - from
  {
    match NextMatch(s, from)
    case None => []
    case Some(m) => [m] + ScanFrom(s, m.bodyEnd)
  }

  function Scan(s: string): seq<Match> {
    ScanFrom(s, 0)
  }

  /** The scanner produces a tiling of the input. */
  lemma {:induction false} ScanFromTiles(s: string, from: nat)
    requires from <= |s|
    ensures TilesFrom(s, from, ScanFrom(s, from))
    decreases |s| - from
  {
    match NextMatch(s, from)
    case None =>
    case Some(m) =>
      var rest := ScanFrom(s, m.bodyEnd);
      ScanFromTiles(s, m.bodyEnd);
      assert ([m] + rest)[1..] == rest;
  }

  /** Every match of a tiling has the regex's shape, and each next match
      starts exactly where the previous body stopped. */
  lemma {:induction false} TilesAt(s: string, from: nat, ms: seq<Match>, k: nat)
    requires TilesFrom(s, from, ms) && k < |ms|
    ensures MatchShape(s, ms[k])
    ensures k + 1 < |ms| ==> ms[k + 1].open == ms[k].bodyEnd
    decreases |ms|
  {
    if k > 0 {
      TilesAt(s, ms[0].bodyEnd, ms[1..], k - 1);
    } else if |ms| > 1 {
      TilesAt(s, ms[0].bodyEnd, ms[1..], 0);
      assert s[ms[1].open] == '[';
    }
  }

  /** Two matches of the regex's shape with no `[` between `from` and
      either start are the same match. */
  lemma ShapeUnique(s: string, from: nat, m: Match, m': Match)
    requires MatchShape(s, m) && from <= m.open && forall i :: from <= i < m.open ==> s[i] != '['
    requires MatchShape(s, m') && from <= m'.open && forall i :: from <= i < m'.open ==> s[i] != '['
    ensures m == m'
  {
    assert m.open == m'.open;
    assert m.close == m'.close;
    assert m.bodyStart == m'.bodyStart;
    assert m.bodyEnd == m'.bodyEnd;
  }

  /** A tiling is determined by the input: the scanner's is the only one. */
  lemma {:induction false} TilesFromUnique(s: string, from: nat, ms: seq<Match>)
    requires from <= |s|
    requires TilesFrom(s, from, ms)
    ensures ms == ScanFrom(s, from)
    decreases |s| - from
  {
    if |ms| > 0 {
      var m := ms[0];
      TilesHead(s, from, ms);
      TilesFromUnique(s, m.bodyEnd, ms[1..]);
      assert ms == [m] + ms[1..];
    } else {
      NoTagNoMatch(s, from);
    }
  }

  /** Where no tag is left, `exec` finds nothing. */
  lemma NoTagNoMatch(s: string, from: nat)
    requires from <= |s| && NoTagFrom(s, from)
    ensures NextMatch(s, from).None?
  {
  }

  /** The first match of a tiling is the one `exec` finds. */
  lemma TilesHead(s: string, from: nat, ms: seq<Match>)
    requires from <= |s| && |ms| > 0
    requires TilesFrom(s, from, ms)
    ensures NextMatch(s, from) == Some(ms[0])
  {
    var m := ms[0];
    assert s[m.open] == '[' && s[m.close] == ']';
    var next := NextMatch(s, from);
    assert next.Some?;
    ShapeUnique(s, from, m, next.value);
  }

  function Label(s: string, m: Match): string
    requires m.open < m.close <= |s|
  {
    s[m.open + 1..m.close]
  }

  function Body(s: string, m: Match): string
    requires m.bodyStart <= m.bodyEnd <= |s|
  {
    s[m.bodyStart..m.bodyEnd]
  }

  function SegmentsOf(s: string, ms: seq<Match>): (segs: seq<Segment>)
    requires forall k :: 0 <= k < |ms| ==> Within(s, ms[k])
    ensures |segs| == |ms|
  {
    if |ms| == 0 then []
    else
      assert Within(s, ms[0]);
      [Segment(Trim(Label(s, ms[0])), Trim(Body(s, ms[0])))] + SegmentsOf(s, ms[1..])
  }

  /** The segments the `while (regex.exec(...))` loop collects, each part trimmed. */
  function Segments(s: string): (segs: seq<Segment>)
  {
    SegmentsOf(s, Scan(s))
  }

  lemma {:induction false} SegmentsOfIndex(s: string, ms: seq<Match>, k: nat)
    requires forall j :: 0 <= j < |ms| ==> Within(s, ms[j])
    requires k < |ms|
    ensures SegmentsOf(s, ms)[k] == Segment(Trim(Label(s, ms[k])), Trim(Body(s, ms[k])))
    decreases k
  {
    if k > 0 {
      SegmentsOfIndex(s, ms[1..], k - 1);
    }
  }

  lemma ScanShape(s: string, k: nat)
    requires k < |Scan(s)|
    ensures MatchShape(s, Scan(s)[k])
  {
    ScanFromTiles(s, 0);
    TilesAt(s, 0, Scan(s), k);
  }

  lemma MatchParts(s: string, m: Match)
    requires MatchShape(s, m)
    ensures ']' !in Label(s, m) && '[' !in Body(s, m)
  {
  }

  /** A speaker name never contains `]`, a content never contains `[`, and
      neither carries white space at its ends. */
  lemma SegmentParts(s: string, k: nat)
    ensures k < |Segments(s)| ==>
      var seg := Segments(s)[k];
      && ']' !in seg.speaker && '[' !in seg.content
      && (|seg.speaker| > 0 ==> !IsSpace(seg.speaker[0]) && !IsSpace(seg.speaker[|seg.speaker| - 1]))
      && (|seg.content| > 0 ==> !IsSpace(seg.content[0]) && !IsSpace(seg.content[|seg.content| - 1]))
  {
    if k < |Segments(s)| {
      var ms := Scan(s);
      ScanShape(s, k);
      MatchParts(s, ms[k]);
      SegmentsOfIndex(s, ms, k);
    }
  }

  /** A slice of a text without `**` has none either. */
  lemma NoBoldSlice(s: string, a: nat, b: nat)
    requires a <= b <= |s| && NoBold(s)
    ensures NoBold(s[a..b])
  {
    assert forall i :: 0 <= i < b - a ==> s[a..b][i] == s[a + i];
  }

  /** Once bold markers are removed from the transcript, no speaker name
      contains `**`. */
  lemma SpeakerHasNoBold(text: string, k: nat)
    ensures k < |Segments(RemoveBold(text))| ==> NoBold(Segments(RemoveBold(text))[k].speaker)
  {
    var s := RemoveBold(text);
    RemoveBoldNoBold(text);
    var ms := Scan(s);
    if k < |ms| {
      var m := ms[k];
      assert Within(s, m);
      SegmentsOfIndex(s, ms, k);
      var name := Label(s, m);
      NoBoldSlice(s, m.open + 1, m.close);
      var (a, b) := TrimBounds(name);
      NoBoldSlice(name, a, b);
    }
  }

  // ---------------------------------------------------------------------
  // Personas and voices

  datatype Voice = Voice(name: string, lang: string)

  /** Pitch and rate of an utterance; absent means the engine's default. */
  datatype Profile = Profile(pitch: Option<real>, rate: Option<real>)

  /** The persona table: lower-case name fragment, pitch, rate. */
  const Personas: seq<(string, real, real)> :=
    [("castillo", 0.6, 1.05), ("varela", 0.9, 1.15), ("rossi", 1.2, 1.2)]

  const FemaleVoiceNames: seq<string> :=
    ["helena", "laura", "sabina", "monica", "paulina", "lucia", "google español", "zira"]

  /** Language tag set on every utterance. */
  const Language: string := "es-ES"

  /** The `if / else if` chain on the lower-cased speaker name. */
  function ProfileFor(speaker: string): (p: Profile)
    ensures p.pitch.Some? <==> p.rate.Some?
    ensures p.pitch.Some? <==> exists k :: 0 <= k < |Personas| && Contains(ToLower(speaker), Personas[k].0)
  {
    var name := ToLower(speaker);
    assert Personas[0].0 == "castillo" && Personas[1].0 == "varela" && Personas[2].0 == "rossi";
    if Contains(name, "castillo") then Profile(Some(0.6), Some(1.05))
    else if Contains(name, "varela") then Profile(Some(0.9), Some(1.15))
    else if Contains(name, "rossi") then Profile(Some(1.2), Some(1.2))
    else Profile(None, None)
  }

  /** A label written with a Turkish capital dotted I still names its
      persona: `ROSSİ` gets rossi's pitch and rate. */
  lemma DottedISpeakerIsRossi()
    ensures ProfileFor("ROSS\U{130}") == Profile(Some(1.2), Some(1.2))
  {
    DottedIKeepsName();
    var name := ToLower("ROSS\U{130}");
    assert !Contains(name, "castillo");
    assert !Contains(name[1..], "varela");
    assert name[..6] != "varela" by { assert name[0] == 'r'; }
  }

  /** First-match lookup in a persona table. */
  function Lookup(table: seq<(string, real, real)>, name: string): Profile
  {
    if |table| == 0 then Profile(None, None)
    else if Contains(name, table[0].0) then Profile(Some(table[0].1), Some(table[0].2))
    else Lookup(table[1..], name)
  }

  /** The chain is a first-match lookup in the persona table on the
      lower-cased name, and so does not depend on letter case. */
  lemma ProfileIsFirstMatch(speaker: string)
    ensures ProfileFor(speaker) == Lookup(Personas, ToLower(speaker))
    ensures ProfileFor(ToLower(speaker)) == ProfileFor(speaker)
  {
    ToLowerIdempotent(speaker);
    var name := ToLower(speaker);
    var t1, t2, t3 := Personas[1..], Personas[2..], Personas[3..];
    assert t1 == [("varela", 0.9, 1.15), ("rossi", 1.2, 1.2)];
    assert t2 == [("rossi", 1.2, 1.2)] && t3 == [];
    assert t1[1..] == t2 && t2[1..] == t3;
    assert Lookup(t3, name) == Profile(None, None);
    assert Lookup(t2, name) == if Contains(name, "rossi") then Profile(Some(1.2), Some(1.2)) else Profile(None, None);
    assert Lookup(t1, name) == if Contains(name, "varela") then Profile(Some(0.9), Some(1.15)) else Lookup(t2, name);
    assert Lookup(Personas, name) == if Contains(name, "castillo") then Profile(Some(0.6), Some(1.05)) else Lookup(t1, name);
  }

  predicate IsSpanish(v: Voice) {
    StartsWith(v.lang, "es")
  }

  predicate SoundsFemale(v: Voice) {
    exists k :: 0 <= k < |FemaleVoiceNames| && Contains(ToLower(v.name), FemaleVoiceNames[k])
  }

  /** The voice the source accepts for every speaker. */
  predicate Eligible(v: Voice) {
    IsSpanish(v) && !SoundsFemale(v)
  }

  /** `voices.filter(v => v.lang.startsWith('es'))`: exactly the Spanish
      voices are kept. */
  function SpanishVoices(voices: seq<Voice>): (r: seq<Voice>)
    ensures forall v :: v in r <==> v in voices && IsSpanish(v)
  {
    if |voices| == 0 then []
    else if IsSpanish(voices[0]) then [voices[0]] + SpanishVoices(voices[1..])
    else SpanishVoices(voices[1..])
  }

  /** The filter keeps order: it distributes over concatenation, and one
      voice is kept exactly when it is Spanish. */
  lemma {:induction false} SpanishVoicesAppend(a: seq<Voice>, b: seq<Voice>)
    ensures SpanishVoices(a + b) == SpanishVoices(a) + SpanishVoices(b)
    ensures |a| == 1 ==> SpanishVoices(a) == if IsSpanish(a[0]) then a else []
    decreases |a|
  {
    if |a| > 0 {
      assert (a + b)[0] == a[0];
      assert (a + b)[1..] == a[1..] + b;
      SpanishVoicesAppend(a[1..], b);
    } else {
      assert a + b == b;
    }
  }

  /** `spanishVoices.find(v => !femaleVoiceNames.some(...))`. */
  function FindNonFemale(voices: seq<Voice>): (r: Option<Voice>)
  {
    if |voices| == 0 then None
    else if !SoundsFemale(voices[0]) then Some(voices[0])
    else FindNonFemale(voices[1..])
  }

  function MaleVoice(voices: seq<Voice>): Option<Voice> {
    FindNonFemale(SpanishVoices(voices))
  }

  /** Filtering then finding picks the first eligible voice of the
      original list, and finds none exactly when no voice is eligible. */
  lemma {:induction false} MaleVoiceIsFirstEligible(voices: seq<Voice>)
    ensures MaleVoice(voices).None? <==> forall i :: 0 <= i < |voices| ==> !Eligible(voices[i])
    ensures MaleVoice(voices).Some? ==>
      exists i :: 0 <= i < |voices| && voices[i] == MaleVoice(voices).value && Eligible(voices[i])
        && forall j :: 0 <= j < i ==> !Eligible(voices[j])
    decreases |voices|
  {
    if |voices| > 0 {
      var v := voices[0];
      var tail := voices[1..];
      MaleVoiceIsFirstEligible(tail);
      assert forall i :: 1 <= i < |voices| ==> voices[i] == tail[i - 1];
      if Eligible(v) {
        assert MaleVoice(voices) == Some(v);
      } else {
        assert MaleVoice(voices) == MaleVoice(tail);
        if MaleVoice(tail).Some? {
          var i :| 0 <= i < |tail| && tail[i] == MaleVoice(tail).value && Eligible(tail[i])
            && forall j :: 0 <= j < i ==> !Eligible(tail[j]);
          assert voices[i + 1] == tail[i];
        }
      }
    }
  }

  // ---------------------------------------------------------------------
  // Utterances

  datatype Utterance = Utterance(text: string, lang: string, voice: Option<Voice>, pitch: Option<real>, rate: Option<real>)

  /** What the pipeline asks of the speech engine. */
  datatype Command = Cancel | Speak(utterance: Utterance)

  /** A segment is spoken only if something other than white space is
      left once markdown is stripped. */
  predicate Audible(seg: Segment) {
    !AllSpace(StripMarkdown(seg.content))
  }

  function UtteranceFor(seg: Segment, voice: Option<Voice>): Utterance {
    var p := ProfileFor(seg.speaker);
    Utterance(StripMarkdown(seg.content), Language, voice, p.pitch, p.rate)
  }

  /** The `segments.forEach` loop. */
  function Utterances(segs: seq<Segment>, voice: Option<Voice>): (us: seq<Utterance>)
    ensures |us| <= |segs|
    ensures forall k :: 0 <= k < |us| ==> !AllSpace(us[k].text) && us[k].lang == Language && us[k].voice == voice
  {
    if |segs| == 0 then []
    else if Audible(segs[0]) then [UtteranceFor(segs[0], voice)] + Utterances(segs[1..], voice)
    else Utterances(segs[1..], voice)
  }

  /** Utterances follow segment order: the plan for two runs of segments
      is the plan for the first followed by the plan for the second, and a
      single segment yields one utterance when audible and none otherwise. */
  lemma {:induction false} UtterancesAppend(a: seq<Segment>, b: seq<Segment>, voice: Option<Voice>)
    ensures Utterances(a + b, voice) == Utterances(a, voice) + Utterances(b, voice)
    ensures |a| == 1 ==> Utterances(a, voice) == if Audible(a[0]) then [UtteranceFor(a[0], voice)] else []
    decreases |a|
  {
    if |a| > 0 {
      assert (a + b)[0] == a[0];
      assert (a + b)[1..] == a[1..] + b;
      UtterancesAppend(a[1..], b, voice);
    } else {
      assert a + b == b;
    }
  }

  /** Exactly the audible segments are spoken: each one has its utterance
      in the plan, and each utterance of the plan is some audible
      segment's. */
  lemma {:induction false} UtterancesCover(segs: seq<Segment>, voice: Option<Voice>)
    ensures forall k :: 0 <= k < |segs| && Audible(segs[k]) ==> UtteranceFor(segs[k], voice) in Utterances(segs, voice)
    ensures forall u :: u in Utterances(segs, voice) ==>
      exists k :: 0 <= k < |segs| && Audible(segs[k]) && u == UtteranceFor(segs[k], voice)
    decreases |segs|
  {
    if |segs| > 0 {
      var tail := segs[1..];
      var rest := Utterances(tail, voice);
      UtterancesCover(tail, voice);
      assert forall k :: 1 <= k < |segs| ==> segs[k] == tail[k - 1];
      forall u | u in Utterances(segs, voice)
        ensures exists k :: 0 <= k < |segs| && Audible(segs[k]) && u == UtteranceFor(segs[k], voice)
      {
        if u in rest {
          var k :| 0 <= k < |tail| && Audible(tail[k]) && u == UtteranceFor(tail[k], voice);
          assert segs[k + 1] == tail[k];
        } else {
          assert Audible(segs[0]) && u == UtteranceFor(segs[0], voice);
        }
      }
    }
  }

  /** The `speak` calls for the segments found in `text`: the fallback
      utterance when there are none, one per audible segment otherwise. */
  function SpeakSegments(segs: seq<Segment>, text: string, voices: seq<Voice>): (cmds: seq<Command>)
    ensures forall i :: 0 <= i < |cmds| ==> cmds[i].Speak? && cmds[i].utterance.lang == Language
    ensures segs == [] ==> cmds == [Speak(Utterance(StripMarkdown(text), Language, None, None, None))]
    ensures segs != [] ==>
      && |cmds| <= |segs|
      && forall i :: 0 <= i < |cmds| ==>
           !AllSpace(cmds[i].utterance.text) && cmds[i].utterance.voice == MaleVoice(voices)
  {
    if |segs| == 0 then [Speak(Utterance(StripMarkdown(text), Language, None, None, None))]
    else SpeakAll(Utterances(segs, MaleVoice(voices)))
  }

  /** `speakTribunalMessage(text)`, given whether the platform offers
      speech synthesis and the voices it lists. */
  function SpeakTribunalMessage(supported: bool, text: string, voices: seq<Voice>): (cmds: seq<Command>)
    ensures !supported ==> cmds == []
    ensures supported ==> |cmds| >= 1 && cmds[0] == Cancel
    ensures forall i :: 1 <= i < |cmds| ==> cmds[i].Speak? && cmds[i].utterance.lang == Language
    ensures supported && Segments(RemoveBold(text)) == [] ==>
      cmds == [Cancel, Speak(Utterance(StripMarkdown(text), Language, None, None, None))]
    ensures supported && Segments(RemoveBold(text)) != [] ==>
      && |cmds| <= 1 + |Segments(RemoveBold(text))|
      && forall i :: 1 <= i < |cmds| ==>
           cmds[i].Speak? && !AllSpace(cmds[i].utterance.text) && cmds[i].utterance.voice == MaleVoice(voices)
  {
    if !supported then []
    else
      var segs := Segments(RemoveBold(text));
      var spoken := SpeakSegments(segs, text, voices);
      [Cancel] + spoken
  }

  /** One `speak` call per utterance, in order. */
  function SpeakAll(us: seq<Utterance>): (cmds: seq<Command>)
    ensures |cmds| == |us|
    ensures forall k :: 0 <= k < |us| ==> cmds[k] == Speak(us[k])
  {
    seq(|us|, k requires 0 <= k < |us| => Speak(us[k]))
  }

  /** For a non-empty list of segments, the `speak` calls are exactly
      those of its audible segments, each with its persona's profile and
      the chosen voice. */
  lemma SpeakSegmentsCover(segs: seq<Segment>, text: string, voices: seq<Voice>)
    requires segs != []
    ensures var cmds := SpeakSegments(segs, text, voices);
      && (forall k :: 0 <= k < |segs| && Audible(segs[k]) ==>
            Speak(UtteranceFor(segs[k], MaleVoice(voices))) in cmds)
      && (forall c :: c in cmds ==>
            exists k :: 0 <= k < |segs| && Audible(segs[k]) && c == Speak(UtteranceFor(segs[k], MaleVoice(voices))))
  {
    var voice := MaleVoice(voices);
    var us := Utterances(segs, voice);
    var cmds := SpeakSegments(segs, text, voices);
    assert cmds == SpeakAll(us);
    UtterancesCover(segs, voice);
    forall k | 0 <= k < |segs| && Audible(segs[k])
      ensures Speak(UtteranceFor(segs[k], voice)) in cmds
    {
      var j :| 0 <= j < |us| && us[j] == UtteranceFor(segs[k], voice);
      assert cmds[j] == Speak(us[j]);
    }
    forall c | c in cmds
      ensures exists k :: 0 <= k < |segs| && Audible(segs[k]) && c == Speak(UtteranceFor(segs[k], voice))
    {
      var i :| 0 <= i < |cmds| && cmds[i] == c;
      assert us[i] in us;
    }
  }

  /** The commands after `Cancel` are the `speak` calls for the segments
      found once bold markers are removed. */
  lemma SpokenAfterCancel(text: string, voices: seq<Voice>)
    ensures SpeakTribunalMessage(true, text, voices)[1..]
         == SpeakSegments(Segments(RemoveBold(text)), text, voices)
  {
  }
}
