/** `chunkText`: a sliding window over the white-space-split words of a
    text. Words are added with a running length counter; when the counter
    reaches `chunkSize` the window is emitted, and its last twenty words
    are carried forward. A final window is kept only if it holds more than
    twenty words. */
module Chunker {
  import opened Strings

  /** The default `chunkSize`. */
  const DefaultChunkSize := 1000

  /** Words carried from one chunk into the next (`slice(-20)`). */
  const Overlap := 20

  // ---------------------------------------------------------------------
  // Words

  /** `s.split(/\s+/)`: the pieces between maximal white-space runs. A
      leading or trailing run yields an empty first or last piece. */
  function SplitWords(s: string): (ws: seq<string>)
    ensures |ws| >= 1
    ensures forall k :: 0 <= k < |ws| ==> NoSpace(ws[k])
    decreases |s|
  {
    if |s| == 0 then [""]
    else if IsSpace(s[0]) then [""] + SplitWords(s[LeadingSpaces(s)..])
    else
      var rest := SplitWords(s[1..]);
      [[s[0]] + rest[0]] + rest[1..]
  }

  function JoinWords(ws: seq<string>): string {
    Join(ws, " ")
  }

  /** A word without white space, put in front of a text, extends that
      text's first piece. */
  lemma {:induction false} SplitPrefixWord(w: string, t: string)
    requires NoSpace(w)
    ensures SplitWords(w + t) == [w + SplitWords(t)[0]] + SplitWords(t)[1..]
    decreases |w|
  {
    if |w| > 0 {
      assert (w + t)[0] == w[0];
      assert (w + t)[1..] == w[1..] + t;
      SplitPrefixWord(w[1..], t);
      assert [w[0]] + (w[1..] + SplitWords(t)[0]) == w + SplitWords(t)[0];
    } else {
      assert w + t == t;
      var ws := SplitWords(t);
      assert w + ws[0] == ws[0];
      assert ws == [ws[0]] + ws[1..];
    }
  }

  /** A white-space run, of any length, in front of a text that does not
      start with white space ends an (empty) piece. With `SplitPrefixWord`
      and the empty text's single empty piece, this fixes the split of every
      text: leading and trailing runs give an empty first or last piece,
      and a run between two words separates them whatever its length. */
  lemma SplitSpaceRun(g: string, t: string)
    requires |g| > 0 && AllSpace(g)
    requires |t| == 0 || !IsSpace(t[0])
    ensures SplitWords(g + t) == [""] + SplitWords(t)
  {
    LeadingSpacesRun(g, t);
    assert (g + t)[0] == g[0];
    assert (g + t)[|g|..] == t;
  }

  lemma {:induction false} LeadingSpacesRun(g: string, t: string)
    requires AllSpace(g)
    requires |t| == 0 || !IsSpace(t[0])
    ensures LeadingSpaces(g + t) == |g|
    decreases |g|
  {
    if |g| > 0 {
      assert (g + t)[0] == g[0] && IsSpace(g[0]);
      assert (g + t)[1..] == g[1..] + t;
      assert AllSpace(g[1..]) by {
        forall i | 0 <= i < |g[1..]|
          ensures IsSpace(g[1..][i])
        {
          assert g[1..][i] == g[i + 1];
        }
      }
      LeadingSpacesRun(g[1..], t);
    } else {
      assert g + t == t;
    }
  }

  /** The pieces of a concrete text with leading, trailing and repeated
      white space. */
  lemma SplitExample()
    ensures SplitWords(" a  b ") == ["", "a", "b", ""]
  {
    SplitExampleTail();
    SplitSpaceRun(" ", "a  b ");
    assert " " + "a  b " == " a  b ";
  }

  lemma SplitExampleTail()
    ensures SplitWords("a  b ") == ["a", "b", ""]
  {
    SplitExampleLast();
    SplitSpaceRun("  ", "b ");
    assert "  " + "b " == "  b ";
    SplitPrefixWord("a", "  b ");
    assert "a" + "  b " == "a  b " && "a" + "" == "a";
  }

  lemma SplitExampleLast()
    ensures SplitWords("b ") == ["b", ""]
  {
    SplitSpaceRun(" ", "");
    assert " " + "" == " ";
    SplitPrefixWord("b", " ");
    assert "b" + " " == "b " && "b" + "" == "b";
  }

  /** Splitting undoes joining with single spaces, for non-empty words free
      of white space. */
  lemma {:induction false} SplitJoinRoundTrip(ws: seq<string>)
    requires |ws| >= 1
    requires forall k :: 0 <= k < |ws| ==> |ws[k]| > 0 && NoSpace(ws[k])
    ensures SplitWords(JoinWords(ws)) == ws
    decreases |ws|
  {
    var w := ws[0];
    if |ws| == 1 {
      SplitPrefixWord(w, "");
      assert w + "" == w;
    } else {
      var rest := ws[1..];
      var j := JoinWords(rest);
      SplitJoinRoundTrip(rest);
      assert JoinWords(ws) == w + (" " + j);
      SplitPrefixWord(w, " " + j);
      JoinStartsWith(rest);
      assert LeadingSpaces(" " + j) == 1 by {
        assert (" " + j)[1..] == j;
      }
      assert (" " + j)[1..] == j;
      assert SplitWords(" " + j) == [""] + ws[1..];
      assert w + "" == w;
    }
  }

  /** A join of non-empty, space-free words begins with a non-space. */
  lemma JoinStartsWith(ws: seq<string>)
    requires |ws| >= 1
    requires forall k :: 0 <= k < |ws| ==> |ws[k]| > 0 && NoSpace(ws[k])
    ensures |JoinWords(ws)| > 0 && JoinWords(ws)[0] == ws[0][0]
  {
    assert NoSpace(ws[0]) && |ws[0]| > 0;
  }

  // ---------------------------------------------------------------------
  // The windows, by word index

  /** The words `[lo, hi)` of the split text. */
  datatype Window = Window(lo: nat, hi: nat)

  predicate ValidWindow(words: seq<string>, w: Window) {
    w.lo < w.hi <= |words|
  }

  /** `slice(-20)` on the window `[start, end)`: its first index afterwards. */
  function CarryStart(start: nat, end: nat): (lo: nat)
    requires start <= end
    ensures start <= lo <= end && end - lo <= Overlap
    ensures end - lo == if end - start < Overlap then end - start else Overlap
  {
    if end - start > Overlap then end - Overlap else start
  }

  /** The windows the loop emits from word `i` on, given the current window
      start and counter. */
  function WindowsFrom(words: seq<string>, size: int, i: nat, start: nat, counter: int): (r: seq<Window>)
    requires start <= i <= |words|
    ensures |r| <= |words| - i + 1
    ensures |r| > 0 ==> r[0].lo == start && (r[0].hi > i || (i == |words| && r[0].hi - start > Overlap))
    decreases |words| - i
  {
    if i == |words| then
      if i - start > Overlap then [Window(start, i)] else []
    else
      var c := counter + Utf16Length(words[i]) + 1;
      if c >= size then
        var lo := CarryStart(start, i + 1);
        [Window(start, i + 1)] + WindowsFrom(words, size, i + 1, lo, Utf16Length(JoinWords(words[lo..i + 1])))
      else
        WindowsFrom(words, size, i + 1, start, c)
  }

  function Windows(words: seq<string>, size: int): seq<Window> {
    WindowsFrom(words, size, 0, 0, 0)
  }

  /** Every window of `ws` lies inside the words and starts at `start` or later. */
  ghost predicate AllValid(words: seq<string>, ws: seq<Window>, start: nat) {
    forall k :: 0 <= k < |ws| ==> start <= ws[k].lo && ValidWindow(words, ws[k])
  }

  /** Every window lies inside the words and starts no earlier than the
      current window. */
  lemma {:induction false} WindowsValid(words: seq<string>, size: int, i: nat, start: nat, counter: int)
    requires start <= i <= |words|
    ensures AllValid(words, WindowsFrom(words, size, i, start, counter), start)
    decreases |words| - i
  {
    if i < |words| {
      var c := counter + Utf16Length(words[i]) + 1;
      if c >= size {
        var lo := CarryStart(start, i + 1);
        var r := WindowsFrom(words, size, i, start, counter);
        var rest := WindowsFrom(words, size, i + 1, lo, Utf16Length(JoinWords(words[lo..i + 1])));
        WindowsValid(words, size, i + 1, lo, Utf16Length(JoinWords(words[lo..i + 1])));
        assert r == [Window(start, i + 1)] + rest;
        forall k | 0 < k < |r|
          ensures start <= r[k].lo && ValidWindow(words, r[k])
        {
          assert r[k] == rest[k - 1];
        }
      } else {
        WindowsValid(words, size, i + 1, start, c);
      }
    }
  }

  /** The text of window `w`: its words joined with single spaces. */
  function WindowText(words: seq<string>, w: Window): string {
    if w.lo <= w.hi <= |words| then JoinWords(words[w.lo..w.hi]) else ""
  }

  function JoinWindows(words: seq<string>, ws: seq<Window>): (chunks: seq<string>)
    ensures |chunks| == |ws|
  {
    if |ws| == 0 then []
    else [WindowText(words, ws[0])] + JoinWindows(words, ws[1..])
  }

  lemma {:induction false} JoinWindowsIndex(words: seq<string>, ws: seq<Window>, k: nat)
    requires k < |ws|
    ensures JoinWindows(words, ws)[k] == WindowText(words, ws[k])
    decreases k
  {
    if k > 0 {
      JoinWindowsIndex(words, ws[1..], k - 1);
    }
  }

  /** The chunks of a text: empty text has none; otherwise each window of
      its words, joined with single spaces. */
  function Chunks(text: string, size: int): (chunks: seq<string>)
  {
    if text == "" then []
    else
      var words := SplitWords(text);
      JoinWindows(words, Windows(words, size))
  }

  /** Each chunk of a non-empty text is the single-space join of a
      non-empty run of consecutive words of its split. */
  lemma ChunkIsRunOfWords(text: string, size: int, k: nat)
    requires text != "" && k < |Chunks(text, size)|
    ensures var words := SplitWords(text);
      var w := Windows(words, size)[k];
      && w.lo < w.hi <= |words|
      && Chunks(text, size)[k] == JoinWords(words[w.lo..w.hi])
  {
    var words := SplitWords(text);
    WindowsValid(words, size, 0, 0, 0);
    JoinWindowsIndex(words, Windows(words, size), k);
  }

  // ---------------------------------------------------------------------
  // Properties of the windows

  /** `next` starts at the words `w` carries over and ends further on. */
  predicate Follows(w: Window, next: Window) {
    w.lo <= w.hi && next.lo == CarryStart(w.lo, w.hi) && w.hi < next.hi
  }

  /** Every window is followed by the next as `Follows` says. */
  predicate Chained(ws: seq<Window>) {
    |ws| <= 1 || (Follows(ws[0], ws[1]) && Chained(ws[1..]))
  }

  lemma {:induction false} ChainedAt(ws: seq<Window>, k: nat)
    requires Chained(ws) && k + 1 < |ws|
    ensures Follows(ws[k], ws[k + 1])
    decreases k
  {
    if k > 0 {
      ChainedAt(ws[1..], k - 1);
    }
  }

  /** Each window after the first starts where the previous one's last
      (up to) twenty words start, and ends further on: consecutive chunks
      overlap in exactly those words and come out in word order. */
  lemma {:induction false} WindowsChain(words: seq<string>, size: int, i: nat, start: nat, counter: int)
    requires start <= i <= |words|
    ensures Chained(WindowsFrom(words, size, i, start, counter))
    decreases |words| - i
  {
    var r := WindowsFrom(words, size, i, start, counter);
    if i < |words| {
      var c := counter + Utf16Length(words[i]) + 1;
      if c >= size {
        var lo := CarryStart(start, i + 1);
        var cnt := Utf16Length(JoinWords(words[lo..i + 1]));
        var rest := WindowsFrom(words, size, i + 1, lo, cnt);
        WindowsChain(words, size, i + 1, lo, cnt);
        assert r == [Window(start, i + 1)] + rest;
        assert r[1..] == rest;
      } else {
        WindowsChain(words, size, i + 1, start, c);
        assert r == WindowsFrom(words, size, i + 1, start, c);
      }
    }
  }

  /** Consecutive chunks share the last (up to) twenty words of the
      earlier one, and each ends further on in the text. */
  lemma ChunksOverlap(words: seq<string>, size: int, k: nat)
    requires k + 1 < |Windows(words, size)|
    ensures var ws := Windows(words, size);
      && ws[k].lo <= ws[k].hi
      && ws[k + 1].lo == CarryStart(ws[k].lo, ws[k].hi)
      && ws[k].hi < ws[k + 1].hi
  {
    WindowsChain(words, size, 0, 0, 0);
    ChainedAt(Windows(words, size), k);
  }

  /** The loop's counter, in terms of the current window `[start, i)`: the
      joined length of its words, plus one before the first chunk (the first
      word's `+ 1` is never dropped until a reset). */
  predicate CounterIs(words: seq<string>, start: nat, i: nat, counter: int, first: bool)
    requires start <= i <= |words|
  {
    && (first || start < i)
    && counter == Utf16Length(JoinWords(words[start..i])) + (if first && start < i then 1 else 0)
  }

  /** Adding a word to a window adds its length plus one separator. */
  lemma CounterStep(words: seq<string>, start: nat, i: nat)
    requires start < i < |words|
    ensures Utf16Length(JoinWords(words[start..i + 1]))
         == Utf16Length(JoinWords(words[start..i])) + Utf16Length(words[i]) + 1
  {
    assert words[start..i + 1] == words[start..i] + [words[i]];
    JoinAppend(words[start..i], " ", words[i]);
    Utf16LengthAppend(JoinWords(words[start..i]) + " ", words[i]);
    Utf16LengthAppend(JoinWords(words[start..i]), " ");
  }

  /** The counter of window `w` (its joined length plus `bonus`) reached `size`. */
  predicate FullWindow(words: seq<string>, size: int, w: Window, bonus: int) {
    ValidWindow(words, w) && Utf16Length(JoinWords(words[w.lo..w.hi])) + bonus >= size
  }

  /** `w` is a leftover of more than twenty words at the end of the text. */
  predicate FinalWindow(words: seq<string>, w: Window) {
    w.hi == |words| && w.hi - w.lo > Overlap
  }

  /** Each window in `ws` was full when emitted (the first one counting
      `bonus` extra), except possibly the last, kept as a long leftover. */
  predicate EmittedWhenFull(words: seq<string>, size: int, ws: seq<Window>, bonus: int) {
    |ws| == 0 ||
      ((FullWindow(words, size, ws[0], bonus) || (|ws| == 1 && FinalWindow(words, ws[0])))
       && EmittedWhenFull(words, size, ws[1..], 0))
  }

  lemma {:induction false} EmittedWhenFullAt(words: seq<string>, size: int, ws: seq<Window>, bonus: int, k: nat)
    requires EmittedWhenFull(words, size, ws, bonus) && k < |ws|
    ensures FullWindow(words, size, ws[k], if k == 0 then bonus else 0) || (k == |ws| - 1 && FinalWindow(words, ws[k]))
    decreases k
  {
    if k > 0 {
      EmittedWhenFullAt(words, size, ws[1..], 0, k - 1);
    }
  }

  /** One step of `WindowsFrom` while words remain. */
  lemma WindowsUnfold(words: seq<string>, size: int, i: nat, start: nat, counter: int)
    requires start <= i < |words|
    ensures var c := counter + Utf16Length(words[i]) + 1;
      var lo := CarryStart(start, i + 1);
      WindowsFrom(words, size, i, start, counter)
      == if c >= size then
           [Window(start, i + 1)] + WindowsFrom(words, size, i + 1, lo, Utf16Length(JoinWords(words[lo..i + 1])))
         else WindowsFrom(words, size, i + 1, start, c)
  {
  }

  lemma EmittedWhenFullCons(words: seq<string>, size: int, w: Window, rest: seq<Window>, bonus: int)
    requires FullWindow(words, size, w, bonus) && EmittedWhenFull(words, size, rest, 0)
    ensures EmittedWhenFull(words, size, [w] + rest, bonus)
  {
    assert ([w] + rest)[1..] == rest;
  }

  lemma {:induction false} WindowsEmitWhenFull(words: seq<string>, size: int, i: nat, start: nat, counter: int, first: bool)
    requires start <= i <= |words|
    requires CounterIs(words, start, i, counter, first)
    ensures EmittedWhenFull(words, size, WindowsFrom(words, size, i, start, counter), if first then 1 else 0)
    decreases |words| - i
  {
    if i < |words| {
      var c := counter + Utf16Length(words[i]) + 1;
      CounterAdvance(words, start, i, counter, first);
      if c >= size {
        var lo := CarryStart(start, i + 1);
        var cnt := Utf16Length(JoinWords(words[lo..i + 1]));
        WindowsEmitWhenFull(words, size, i + 1, lo, cnt, false);
        EmitFull(words, size, i, start, counter, first);
      } else {
        WindowsEmitWhenFull(words, size, i + 1, start, c, first);
        EmitSkip(words, size, i, start, counter, if first then 1 else 0);
      }
    } else {
      EmitLast(words, size, start, counter);
    }
  }

  /** The window emitted when the counter reaches `size` was full. */
  lemma EmitFull(words: seq<string>, size: int, i: nat, start: nat, counter: int, first: bool)
    requires start <= i < |words|
    requires counter + Utf16Length(words[i]) + 1 == Utf16Length(JoinWords(words[start..i + 1])) + (if first then 1 else 0)
    requires counter + Utf16Length(words[i]) + 1 >= size
    requires var lo := CarryStart(start, i + 1);
      EmittedWhenFull(words, size, WindowsFrom(words, size, i + 1, lo, Utf16Length(JoinWords(words[lo..i + 1]))), 0)
    ensures EmittedWhenFull(words, size, WindowsFrom(words, size, i, start, counter), if first then 1 else 0)
  {
    var lo := CarryStart(start, i + 1);
    WindowsUnfold(words, size, i, start, counter);
    EmittedWhenFullCons(words, size, Window(start, i + 1),
      WindowsFrom(words, size, i + 1, lo, Utf16Length(JoinWords(words[lo..i + 1]))), if first then 1 else 0);
  }

  /** A word that leaves the counter below `size` emits nothing. */
  lemma EmitSkip(words: seq<string>, size: int, i: nat, start: nat, counter: int, bonus: int)
    requires start <= i < |words|
    requires counter + Utf16Length(words[i]) + 1 < size
    requires EmittedWhenFull(words, size, WindowsFrom(words, size, i + 1, start, counter + Utf16Length(words[i]) + 1), bonus)
    ensures EmittedWhenFull(words, size, WindowsFrom(words, size, i, start, counter), bonus)
  {
    WindowsUnfold(words, size, i, start, counter);
  }

  /** The leftover kept at the end of the words is a final window. */
  lemma EmitLast(words: seq<string>, size: int, start: nat, counter: int)
    requires start <= |words|
    ensures EmittedWhenFull(words, size, WindowsFrom(words, size, |words|, start, counter), 0)
    ensures EmittedWhenFull(words, size, WindowsFrom(words, size, |words|, start, counter), 1)
  {
    var ws := WindowsFrom(words, size, |words|, start, counter);
    if |words| - start > Overlap {
      assert ws == [Window(start, |words|)] && ws[1..] == [];
      assert FinalWindow(words, ws[0]);
    }
  }

  /** A chunk is emitted inside the loop only once the counter reached
      `chunkSize` (the first chunk's counter is its joined length plus one,
      later ones their joined length); the one exception is the last chunk,
      kept at the end of the text because it holds more than twenty words. */
  lemma ChunkEmittedWhenFull(words: seq<string>, size: int, k: nat)
    requires k < |Windows(words, size)|
    ensures var w := Windows(words, size)[k];
      || (w.lo < w.hi <= |words| && Utf16Length(JoinWords(words[w.lo..w.hi])) + (if k == 0 then 1 else 0) >= size)
      || (k == |Windows(words, size)| - 1 && w.hi == |words| && w.hi - w.lo > Overlap)
  {
    WindowsEmitWhenFull(words, size, 0, 0, 0, true);
    EmittedWhenFullAt(words, size, Windows(words, size), 1, k);
  }

  // ---------------------------------------------------------------------
  // The windows, characterised without the loop

  /** The loop's counter once the words `[lo, j)` are in the window:
      their joined length, plus `bonus` (one in the first window). */
  function Counter(words: seq<string>, lo: nat, j: nat, bonus: int): int
    requires lo <= j <= |words|
  {
    Utf16Length(JoinWords(words[lo..j])) + bonus
  }

  /** `ws` are the windows of the words when the current window starts at
      `start`, its counter was last tested after word `from - 1` (the
      carried words `[start, from)` are already in), and `bonus` is added
      to its counter. Each window ends at the FIRST word after `from` whose
      counter reaches `size`, and the next one begins with its carried
      words; if no counter reaches `size`, the rest of the words form one
      last window exactly when they are more than twenty. */
  ghost predicate Emits(words: seq<string>, size: int, ws: seq<Window>, start: nat, from: nat, bonus: int)
    decreases |ws|
  {
    && start <= from <= |words|
    && if |ws| == 0 then
         && |words| - start <= Overlap
         && forall j :: from < j <= |words| ==> Counter(words, start, j, bonus) < size
       else
         var w := ws[0];
         && w.lo == start && from < w.hi <= |words|
         && (forall j :: from < j < w.hi ==> Counter(words, start, j, bonus) < size)
         && if Counter(words, start, w.hi, bonus) >= size then
              Emits(words, size, ws[1..], CarryStart(start, w.hi), w.hi, 0)
            else |ws| == 1 && w.hi == |words| && |words| - start > Overlap
  }

  /** The loop's windows from word `i` on meet `Emits`, given that no test
      since `from` has fired. */
  lemma {:induction false} WindowsEmits(words: seq<string>, size: int, i: nat, start: nat, counter: int,
                                        first: bool, bonus: int, from: nat)
    requires start <= from <= i <= |words|
    requires CounterIs(words, start, i, counter, first) && bonus == if first then 1 else 0
    requires i - start > Overlap ==> from < i
    requires forall j :: from < j <= i ==> Counter(words, start, j, bonus) < size
    ensures Emits(words, size, WindowsFrom(words, size, i, start, counter), start, from, bonus)
    decreases |words| - i
  {
    if i < |words| {
      var c := counter + Utf16Length(words[i]) + 1;
      CounterAdvance(words, start, i, counter, first);
      assert c == Counter(words, start, i + 1, bonus);
      if c >= size {
        var lo := CarryStart(start, i + 1);
        var cnt := Utf16Length(JoinWords(words[lo..i + 1]));
        WindowsEmits(words, size, i + 1, lo, cnt, false, 0, i + 1);
        EmitsFull(words, size, i, start, counter, from, bonus);
      } else {
        QuietExtend(words, size, start, from, i, bonus);
        WindowsEmits(words, size, i + 1, start, c, first, bonus, from);
        EmitsSkip(words, size, i, start, counter, from, bonus);
      }
    } else {
      EmitsEnd(words, size, start, counter, from, bonus);
    }
  }

  /** No test in `(from, i]` fired and the one at `i + 1` does not. */
  lemma QuietExtend(words: seq<string>, size: int, start: nat, from: nat, i: nat, bonus: int)
    requires start <= from <= i < |words|
    requires forall j :: from < j <= i ==> Counter(words, start, j, bonus) < size
    requires Counter(words, start, i + 1, bonus) < size
    ensures forall j :: from < j <= i + 1 ==> Counter(words, start, j, bonus) < size
  {
  }

  /** A word that leaves the counter below `size` emits nothing. */
  lemma EmitsSkip(words: seq<string>, size: int, i: nat, start: nat, counter: int, from: nat, bonus: int)
    requires start <= i < |words|
    requires counter + Utf16Length(words[i]) + 1 < size
    requires Emits(words, size, WindowsFrom(words, size, i + 1, start, counter + Utf16Length(words[i]) + 1), start, from, bonus)
    ensures Emits(words, size, WindowsFrom(words, size, i, start, counter), start, from, bonus)
  {
    WindowsUnfold(words, size, i, start, counter);
  }

  /** A word that makes the counter reach `size` ends the window. */
  lemma EmitsFull(words: seq<string>, size: int, i: nat, start: nat, counter: int, from: nat, bonus: int)
    requires start <= from <= i < |words|
    requires counter + Utf16Length(words[i]) + 1 == Counter(words, start, i + 1, bonus)
    requires Counter(words, start, i + 1, bonus) >= size
    requires forall j :: from < j <= i ==> Counter(words, start, j, bonus) < size
    requires var lo := CarryStart(start, i + 1);
      Emits(words, size, WindowsFrom(words, size, i + 1, lo, Utf16Length(JoinWords(words[lo..i + 1]))), lo, i + 1, 0)
    ensures Emits(words, size, WindowsFrom(words, size, i, start, counter), start, from, bonus)
  {
    var lo := CarryStart(start, i + 1);
    WindowsUnfold(words, size, i, start, counter);
    EmitsCons(words, size, Window(start, i + 1),
      WindowsFrom(words, size, i + 1, lo, Utf16Length(JoinWords(words[lo..i + 1]))), start, from, bonus);
  }

  /** A full window followed by the windows after its carry. */
  lemma EmitsCons(words: seq<string>, size: int, w: Window, rest: seq<Window>, start: nat, from: nat, bonus: int)
    requires start <= from < w.hi <= |words| && w.lo == start
    requires forall j :: from < j < w.hi ==> Counter(words, start, j, bonus) < size
    requires Counter(words, start, w.hi, bonus) >= size
    requires Emits(words, size, rest, CarryStart(start, w.hi), w.hi, 0)
    ensures Emits(words, size, [w] + rest, start, from, bonus)
  {
    assert ([w] + rest)[1..] == rest;
  }

  /** At the end of the words: the leftover, if longer than twenty words. */
  lemma EmitsEnd(words: seq<string>, size: int, start: nat, counter: int, from: nat, bonus: int)
    requires start <= from <= |words|
    requires |words| - start > Overlap ==> from < |words|
    requires forall j :: from < j <= |words| ==> Counter(words, start, j, bonus) < size
    ensures Emits(words, size, WindowsFrom(words, size, |words|, start, counter), start, from, bonus)
  {
    if |words| - start > Overlap {
      var ws := WindowsFrom(words, size, |words|, start, counter);
      assert ws == [Window(start, |words|)];
      assert Counter(words, start, |words|, bonus) < size;
    }
  }

  /** `Emits` admits one sequence of windows only. */
  lemma {:induction false} EmitsUnique(words: seq<string>, size: int, ws1: seq<Window>, ws2: seq<Window>,
                                       start: nat, from: nat, bonus: int)
    requires Emits(words, size, ws1, start, from, bonus)
    requires Emits(words, size, ws2, start, from, bonus)
    ensures ws1 == ws2
    decreases |ws1|
  {
    EmitsBothEmpty(words, size, ws1, ws2, start, from, bonus);
    if |ws1| > 0 {
      var w1, w2 := ws1[0], ws2[0];
      EmitsSameEnd(words, size, ws1, ws2, start, from, bonus);
      if Counter(words, start, w1.hi, bonus) >= size {
        EmitsUnique(words, size, ws1[1..], ws2[1..], CarryStart(start, w1.hi), w1.hi, 0);
        assert ws1 == [w1] + ws1[1..] && ws2 == [w2] + ws2[1..];
      }
    }
  }

  /** Of two sequences meeting `Emits`, both or neither are empty: the
      first window's end either fires a test or is a long leftover. */
  lemma EmitsBothEmpty(words: seq<string>, size: int, ws1: seq<Window>, ws2: seq<Window>,
                       start: nat, from: nat, bonus: int)
    requires Emits(words, size, ws1, start, from, bonus)
    requires Emits(words, size, ws2, start, from, bonus)
    ensures |ws1| == 0 <==> |ws2| == 0
  {
  }

  /** Two sequences meeting `Emits` agree on their first window: a window
      ending earlier would have had to be the leftover at the end. */
  lemma EmitsSameEnd(words: seq<string>, size: int, ws1: seq<Window>, ws2: seq<Window>,
                     start: nat, from: nat, bonus: int)
    requires |ws1| > 0 && |ws2| > 0
    requires Emits(words, size, ws1, start, from, bonus)
    requires Emits(words, size, ws2, start, from, bonus)
    ensures ws1[0] == ws2[0]
  {
  }

  /** The windows of the loop are exactly the ones `Emits` describes from
      the first word (counter bonus one): each chunk ends at the first word
      whose counter reaches `chunkSize`, and a trailing run of more than
      twenty words that never fills is still kept. */
  lemma WindowsExact(words: seq<string>, size: int, ws: seq<Window>)
    ensures Emits(words, size, Windows(words, size), 0, 0, 1)
    ensures Emits(words, size, ws, 0, 0, 1) ==> ws == Windows(words, size)
  {
    assert words[0..0] == [];
    WindowsEmits(words, size, 0, 0, 0, true, 1, 0);
    if Emits(words, size, ws, 0, 0, 1) {
      EmitsUnique(words, size, ws, Windows(words, size), 0, 0, 1);
    }
  }

  /** Taking word `i` into the window keeps the counter's meaning. */
  lemma CounterAdvance(words: seq<string>, start: nat, i: nat, counter: int, first: bool)
    requires start <= i < |words|
    requires CounterIs(words, start, i, counter, first)
    ensures counter + Utf16Length(words[i]) + 1 == Utf16Length(JoinWords(words[start..i + 1])) + (if first then 1 else 0)
    ensures CounterIs(words, start, i + 1, counter + Utf16Length(words[i]) + 1, first)
  {
    if start < i {
      CounterStep(words, start, i);
    } else {
      assert words[start..i + 1] == [words[i]];
    }
  }

  /** The joined length of a prefix of the words never exceeds that of all. */
  lemma {:induction false} JoinPrefixShorter(words: seq<string>, i: nat)
    requires i <= |words|
    ensures Utf16Length(JoinWords(words[..i])) <= Utf16Length(JoinWords(words))
    decreases |words| - i
  {
    if i < |words| {
      JoinPrefixShorter(words, i + 1);
      if i > 0 {
        CounterStep(words, 0, i);
        assert words[..i] == words[0..i] && words[..i + 1] == words[0..i + 1];
      }
    } else {
      assert words[..i] == words;
    }
  }

  lemma {:induction false} ShortFromHasNoWindows(words: seq<string>, size: int, i: nat)
    requires i <= |words| <= Overlap
    requires Utf16Length(JoinWords(words)) + 1 < size
    ensures WindowsFrom(words, size, i, 0, if i == 0 then 0 else Utf16Length(JoinWords(words[..i])) + 1) == []
    decreases |words| - i
  {
    if i < |words| {
      var counter := if i == 0 then 0 else Utf16Length(JoinWords(words[..i])) + 1;
      var c := counter + Utf16Length(words[i]) + 1;
      if i > 0 {
        CounterStep(words, 0, i);
        assert words[..i] == words[0..i] && words[..i + 1] == words[0..i + 1];
      } else {
        assert words[..1] == [words[0]];
      }
      assert c == Utf16Length(JoinWords(words[..i + 1])) + 1;
      JoinPrefixShorter(words, i + 1);
      ShortFromHasNoWindows(words, size, i + 1);
    }
  }

  /** A text of at most twenty words whose counter never reaches
      `chunkSize` (its largest value is the joined length plus one) yields
      no chunk at all: the short-text edge case. */
  lemma ShortTextHasNoChunks(text: string, size: int)
    requires |SplitWords(text)| <= Overlap
    requires Utf16Length(JoinWords(SplitWords(text))) + 1 < size
    ensures Chunks(text, size) == []
  {
    ShortFromHasNoWindows(SplitWords(text), size, 0);
  }

  // ---------------------------------------------------------------------
  // The loop

  /** One iteration of the loop, on the windows still to come. */
  lemma WindowsStep(words: seq<string>, size: int, i: nat, start: nat, counter: int)
    requires start <= i < |words|
    ensures var c := counter + Utf16Length(words[i]) + 1;
      var lo := CarryStart(start, i + 1);
      JoinWindows(words, WindowsFrom(words, size, i, start, counter))
      == if c >= size then
           [JoinWords(words[start..i + 1])]
           + JoinWindows(words, WindowsFrom(words, size, i + 1, lo, Utf16Length(JoinWords(words[lo..i + 1]))))
         else JoinWindows(words, WindowsFrom(words, size, i + 1, start, c))
  {
    WindowsUnfold(words, size, i, start, counter);
  }

  /** The loop invariant: the chunks emitted so far followed by the
      chunks of the windows still to come are all the chunks. */
  ghost predicate Pending(words: seq<string>, size: int, i: nat, start: nat, counter: int,
                          chunks: seq<string>, all: seq<string>)
    requires start <= i <= |words|
  {
    chunks + JoinWindows(words, WindowsFrom(words, size, i, start, counter)) == all
  }

  /** The state of the loop after word `i`: `current` is the window
      `[start, i)`, and `Pending` holds. */
  ghost predicate LoopInv(words: seq<string>, size: int, all: seq<string>, i: nat, start: nat,
                          chunks: seq<string>, current: seq<string>, counter: int)
  {
    && start <= i <= |words|
    && current == words[start..i]
    && Pending(words, size, i, start, counter, chunks, all)
  }

  /** One iteration of the loop keeps `Pending`. */
  lemma PendingStep(words: seq<string>, size: int, i: nat, start: nat, counter: int,
                    chunks: seq<string>, all: seq<string>)
    requires start <= i < |words|
    requires Pending(words, size, i, start, counter, chunks, all)
    ensures var c := counter + Utf16Length(words[i]) + 1;
      var lo := CarryStart(start, i + 1);
      if c >= size then
        Pending(words, size, i + 1, lo, Utf16Length(JoinWords(words[lo..i + 1])),
                chunks + [JoinWords(words[start..i + 1])], all)
      else Pending(words, size, i + 1, start, c, chunks, all)
  {
    WindowsStep(words, size, i, start, counter);
  }

  /** At the end of the words, `Pending` leaves only the final window. */
  lemma PendingEnd(words: seq<string>, size: int, start: nat, counter: int,
                   chunks: seq<string>, current: seq<string>, all: seq<string>)
    requires start <= |words| && current == words[start..|words|]
    requires Pending(words, size, |words|, start, counter, chunks, all)
    ensures all == if |current| > Overlap then chunks + [JoinWords(current)] else chunks
  {
    var ws := WindowsFrom(words, size, |words|, start, counter);
    if |words| - start > Overlap {
      assert ws == [Window(start, |words|)];
      assert ws[1..] == [];
      assert JoinWindows(words, ws) == [JoinWords(words[start..|words|])];
    } else {
      assert JoinWindows(words, ws) == [];
    }
  }

  lemma WindowExtend(words: seq<string>, start: nat, i: nat)
    requires start <= i < |words|
    ensures words[start..i] + [words[i]] == words[start..i + 1]
  {
  }

  /** `slice(-20)` of the window is the window from `CarryStart` on. */
  lemma WindowCarry(words: seq<string>, start: nat, end: nat)
    requires start <= end <= |words|
    ensures var w := words[start..end];
      (if |w| > Overlap then w[|w| - Overlap..] else w) == words[CarryStart(start, end)..end]
  {
  }

  /** One pass of the loop body: take word `i` into the window, and emit
      the window and keep its last twenty words once the counter reaches
      `chunkSize`. */
  method TakeWord(words: seq<string>, chunkSize: int, i: nat, ghost start: nat,
                  chunks: seq<string>, current: seq<string>, currentLength: int, ghost all: seq<string>)
    returns (chunks': seq<string>, current': seq<string>, currentLength': int, ghost start': nat)
    requires i < |words|
    requires LoopInv(words, chunkSize, all, i, start, chunks, current, currentLength)
    ensures LoopInv(words, chunkSize, all, i + 1, start', chunks', current', currentLength')
  {
    PendingStep(words, chunkSize, i, start, currentLength, chunks, all);
    WindowExtend(words, start, i);
    current' := current + [words[i]];
    currentLength' := currentLength + Utf16Length(words[i]) + 1;
    chunks' := chunks;
    start' := start;
    if currentLength' >= chunkSize {
      chunks' := chunks + [JoinWords(current')];
      WindowCarry(words, start, i + 1);
      current' := if |current'| > Overlap then current'[|current'| - Overlap..] else current';
      currentLength' := Utf16Length(JoinWords(current'));
      start' := CarryStart(start, i + 1);
    }
  }

  /** The loop of `chunkText`, over the split words. */
  method ChunkWords(words: seq<string>, chunkSize: int) returns (chunks: seq<string>)
    ensures chunks == JoinWindows(words, Windows(words, chunkSize))
  {
    ghost var all := JoinWindows(words, Windows(words, chunkSize));
    chunks := [];
    var current: seq<string> := [];
    var currentLength := 0;
    ghost var start: nat := 0;
    var i := 0;
    while i < |words|
      invariant LoopInv(words, chunkSize, all, i, start, chunks, current, currentLength)
    {
      chunks, current, currentLength, start := TakeWord(words, chunkSize, i, start, chunks, current, currentLength, all);
      i := i + 1;
    }
    PendingEnd(words, chunkSize, start, currentLength, chunks, current, all);
    if |current| > Overlap {
      chunks := chunks + [JoinWords(current)];
    }
  }

  /** `chunkText(text, chunkSize)`: no chunk for the empty text, else the
      windows of its words. */
  method ChunkText(text: string, chunkSize: int := DefaultChunkSize) returns (chunks: seq<string>)
    ensures text == "" ==> chunks == []
    ensures chunks == Chunks(text, chunkSize)
    ensures text != "" ==> |chunks| <= |SplitWords(text)| + 1
  {
    if text == "" {
      return [];
    }
    var words := SplitWords(text);
    chunks := ChunkWords(words, chunkSize);
  }
}
