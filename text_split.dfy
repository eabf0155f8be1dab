/** Breaking plant variety names into short lines (src/utils/textSplitUtils.tsx).
    `hardSplit` cuts text into pieces of at most `maxLength` characters, as the
    global match of the regular expression `.{1,maxLength}` does: greedy, and
    skipping the line terminators `.` cannot match. `batchWords` packs words
    into lines of at most `maxLength` characters, and `splitVariety` chooses
    between the two. */
module TextSplit {
  import Js
  import Seqs

  predicate NotTerminator(c: char)
  {
    !Js.IsLineTerminator(c)
  }

  /** The characters that survive in the output of either splitter when the
      separating spaces and the skipped line terminators are ignored. */
  predicate IsTextChar(c: char)
  {
    c != ' ' && !Js.IsLineTerminator(c)
  }

  /** The text with the line terminators removed. */
  function WithoutTerminators(text: string): string
  {
    Seqs.Filter(text, NotTerminator)
  }

  /** The text with spaces and line terminators removed. */
  function Squeeze(text: string): string
  {
    Seqs.Filter(text, IsTextChar)
  }

  /** How many characters one match of `.{1,n}` at the start of `text` takes:
      as many as it can, up to n, stopping before a line terminator. */
  function RunLength(text: string, n: nat): (k: nat)
    ensures k <= n && k <= |text|
    ensures forall i :: 0 <= i < k ==> NotTerminator(text[i])
    ensures k < n && k < |text| ==> Js.IsLineTerminator(text[k])
    decreases n
  {
    if n == 0 || text == [] || Js.IsLineTerminator(text[0]) then 0
    else 1 + RunLength(text[1..], n - 1)
  }

  /** `hardSplit(text, maxLength)`; the pattern `.{1,0}` is rejected, so
      `maxLength` must be at least 1. Every chunk has 1 to `maxLength`
      characters and no line terminator. */
  function HardSplit(text: string, maxLength: nat): (chunks: seq<string>)
    requires maxLength >= 1
    ensures forall i :: 0 <= i < |chunks| ==> 1 <= |chunks[i]| <= maxLength
    ensures forall i, j :: 0 <= i < |chunks| && 0 <= j < |chunks[i]| ==> NotTerminator(chunks[i][j])
    decreases |text|
  {
    if text == [] then []
    else if Js.IsLineTerminator(text[0]) then HardSplit(text[1..], maxLength)
    else
      var k := RunLength(text, maxLength);
      [text[..k]] + HardSplit(text[k..], maxLength)
  }

  /** The chunks put back together are the text without its line terminators. */
  lemma {:induction false} HardSplitConcat(text: string, maxLength: nat)
    requires maxLength >= 1
    ensures Seqs.Concat(HardSplit(text, maxLength)) == WithoutTerminators(text)
    decreases |text|
  {
    if text != [] {
      if Js.IsLineTerminator(text[0]) {
        HardSplitConcat(text[1..], maxLength);
        assert text == [text[0]] + text[1..];
        Seqs.FilterCons(text[0], text[1..], NotTerminator);
      } else {
        var k := RunLength(text, maxLength);
        HardSplitConcat(text[k..], maxLength);
        assert text == text[..k] + text[k..];
        Seqs.FilterAppend(text[..k], text[k..], NotTerminator);
        Seqs.FilterKeepsAll(text[..k], NotTerminator);
        var chunks := HardSplit(text, maxLength);
        assert chunks[1..] == HardSplit(text[k..], maxLength);
      }
    }
  }

  /** The length half of `HardSplitCuts`, by induction on the text. */
  lemma {:induction false} HardSplitFull(text: string, maxLength: nat)
    requires maxLength >= 1
    requires forall i :: 0 <= i < |text| ==> NotTerminator(text[i])
    ensures var chunks := HardSplit(text, maxLength);
            && (text == [] <==> chunks == [])
            && (forall i :: 0 <= i < |chunks| - 1 ==> |chunks[i]| == maxLength)
    decreases |text|
  {
    if text != [] {
      assert NotTerminator(text[0]);
      var k := RunLength(text, maxLength);
      var rest := text[k..];
      assert forall i :: 0 <= i < |rest| ==> NotTerminator(rest[i]) by {
        forall i | 0 <= i < |rest| ensures NotTerminator(rest[i]) {
          assert rest[i] == text[k + i];
        }
      }
      HardSplitFull(rest, maxLength);
      var chunks := HardSplit(text, maxLength);
      assert chunks == [text[..k]] + HardSplit(rest, maxLength);
      if k < maxLength {
        assert k == |text|;
      }
    }
  }

  /** On text without line terminators, the chunks are the text cut every
      `maxLength` characters: all but the last have exactly that length, and
      the empty text gives no chunk. */
  lemma HardSplitCuts(text: string, maxLength: nat)
    requires maxLength >= 1
    requires forall i :: 0 <= i < |text| ==> NotTerminator(text[i])
    ensures var chunks := HardSplit(text, maxLength);
            && Seqs.Concat(chunks) == text
            && (text == [] <==> chunks == [])
            && (forall i :: 0 <= i < |chunks| - 1 ==> |chunks[i]| == maxLength)
  {
    HardSplitConcat(text, maxLength);
    Seqs.FilterKeepsAll(text, NotTerminator);
    HardSplitFull(text, maxLength);
  }

  // ---------------------------------------------------------------------------
  // batchWords

  /** The loop state of `batchWords`: the lines pushed so far and `currentBatch`. */
  datatype Batching = Batching(result: seq<string>, current: string)

  /** One iteration of the `for (const word of words)` loop. A word longer than
      `maxLength` closes the open batch and its chunks follow as lines of their
      own, leaving no batch open. A shorter word opens a batch when none is
      open; otherwise it joins the open batch, after one space, exactly when
      the joined batch still fits in `maxLength`, and when it does not, the
      open batch becomes a line and the word opens the next one. */
  function Step(b: Batching, word: string, maxLength: nat): (s: Batching)
    requires maxLength >= 1
    ensures |word| > maxLength ==> s.result == Flush(b) + HardSplit(word, maxLength) && s.current == ""
    ensures |word| <= maxLength && b.current == "" ==> s.result == b.result && s.current == word
    ensures |word| <= maxLength && b.current != "" ==>
              && (s.result == b.result <==> |b.current| + 1 + |word| <= maxLength)
              && (s.result == b.result ==> s.current == b.current + " " + word)
              && (s.result != b.result ==> s.result == b.result + [b.current] && s.current == word)
  {
    if |word| > maxLength then
      var flushed := if b.current != "" then b.result + [b.current] else b.result;
      Batching(flushed + HardSplit(word, maxLength), "")
    else if b.current == "" then Batching(b.result, word)
    else if |b.current| + 1 + |word| <= maxLength then Batching(b.result, b.current + " " + word)
    else Batching(b.result + [b.current], word)
  }

  /** The loop state after the words, taken in order. */
  function Fold(words: seq<string>, maxLength: nat): Batching
    requires maxLength >= 1
    decreases |words|
  {
    if words == [] then Batching([], "")
    else Step(Fold(words[..|words| - 1], maxLength), words[|words| - 1], maxLength)
  }

  /** The final `if (currentBatch) result.push(currentBatch)`. */
  function Flush(b: Batching): seq<string>
  {
    if b.current != "" then b.result + [b.current] else b.result
  }

  /** What `batchWords(words, maxLength)` returns: every line has between 1 and
      `maxLength` characters. */
  function Batched(words: seq<string>, maxLength: nat): (lines: seq<string>)
    requires maxLength >= 1
    ensures forall i :: 0 <= i < |lines| ==> 1 <= |lines[i]| <= maxLength
  {
    FoldFits(words, maxLength);
    Flush(Fold(words, maxLength))
  }

  /** Every line pushed is non-empty and fits, and so does the open batch. */
  ghost predicate Fits(b: Batching, maxLength: nat)
  {
    && (forall i :: 0 <= i < |b.result| ==> 1 <= |b.result[i]| <= maxLength)
    && |b.current| <= maxLength
  }

  lemma {:induction false} StepFits(b: Batching, word: string, maxLength: nat)
    requires maxLength >= 1
    requires Fits(b, maxLength)
    ensures Fits(Step(b, word, maxLength), maxLength)
  {
    if |word| > maxLength {
      var flushed := if b.current != "" then b.result + [b.current] else b.result;
      var chunks := HardSplit(word, maxLength);
      var r := flushed + chunks;
      forall i | 0 <= i < |r| ensures 1 <= |r[i]| <= maxLength {
        if i >= |flushed| {
          assert r[i] == chunks[i - |flushed|];
        }
      }
    }
  }

  lemma {:induction false} FoldFits(words: seq<string>, maxLength: nat)
    requires maxLength >= 1
    ensures Fits(Fold(words, maxLength), maxLength)
    decreases |words|
  {
    if words != [] {
      FoldFits(words[..|words| - 1], maxLength);
      StepFits(Fold(words[..|words| - 1], maxLength), words[|words| - 1], maxLength);
    }
  }

  /** Squeeze distributes over concatenation. */
  lemma SqueezeAppend(a: string, b: string)
    ensures Squeeze(a + b) == Squeeze(a) + Squeeze(b)
  {
    Seqs.FilterAppend(a, b, IsTextChar);
  }

  /** The text carried by a loop state: the pushed lines, then the open batch. */
  function Carried(b: Batching): string
  {
    Seqs.Concat(b.result) + b.current
  }

  /** The chunks of a long word carry its text. */
  lemma SqueezeHardSplit(word: string, maxLength: nat)
    requires maxLength >= 1
    ensures Squeeze(Seqs.Concat(HardSplit(word, maxLength))) == Squeeze(word)
  {
    HardSplitConcat(word, maxLength);
    Seqs.FilterFilter(word, NotTerminator, IsTextChar);
  }

  /** Pushing the open batch onto the lines keeps the carried text. */
  lemma FlushCarries(b: Batching)
    ensures Seqs.Concat(Flush(b)) == Carried(b)
  {
    if b.current != "" {
      Seqs.ConcatAppend(b.result, [b.current]);
      Seqs.ConcatSingle(b.current);
    } else {
      assert Carried(b) == Seqs.Concat(b.result) + "";
    }
  }

  lemma {:induction false} StepCarries(b: Batching, word: string, maxLength: nat)
    requires maxLength >= 1
    ensures Squeeze(Carried(Step(b, word, maxLength))) == Squeeze(Carried(b)) + Squeeze(word)
  {
    var s := Step(b, word, maxLength);
    if |word| > maxLength {
      var flushed := Flush(b);
      var chunks := HardSplit(word, maxLength);
      assert s == Batching(flushed + chunks, "");
      assert Carried(s) == Seqs.Concat(flushed + chunks) + "";
      Seqs.ConcatAppend(flushed, chunks);
      FlushCarries(b);
      var c := Seqs.Concat(chunks);
      assert Seqs.Concat(flushed + chunks) + "" == Seqs.Concat(flushed + chunks);
      assert Carried(s) == Carried(b) + c;
      SqueezeAppend(Carried(b), c);
      SqueezeHardSplit(word, maxLength);
    } else if b.current == "" {
      var r := Seqs.Concat(b.result);
      assert Carried(b) == r + "" == r;
      assert Carried(s) == r + word;
      SqueezeAppend(r, word);
    } else if |b.current| + 1 + |word| <= maxLength {
      var r := Seqs.Concat(b.result);
      assert Carried(s) == (r + b.current) + " " + word;
      SqueezeAppend(r + b.current + " ", word);
      SqueezeAppend(r + b.current, " ");
      assert Squeeze(" ") == Seqs.Filter([], IsTextChar) + [];
    } else {
      FlushCarries(b);
      assert Carried(s) == Seqs.Concat(Flush(b)) + word;
      SqueezeAppend(Carried(b), word);
    }
  }

  lemma {:induction false} FoldCarries(words: seq<string>, maxLength: nat)
    requires maxLength >= 1
    ensures Squeeze(Carried(Fold(words, maxLength))) == Squeeze(Seqs.Concat(words))
    decreases |words|
  {
    if words != [] {
      var p, w := words[..|words| - 1], words[|words| - 1];
      FoldCarries(p, maxLength);
      StepCarries(Fold(p, maxLength), w, maxLength);
      assert words == p + [w];
      Seqs.ConcatAppend(p, [w]);
      Seqs.ConcatSingle(w);
      SqueezeAppend(Seqs.Concat(p), w);
      assert Fold(words, maxLength) == Step(Fold(p, maxLength), w, maxLength);
    }
  }

  /** `batchWords` loses no character and reorders nothing: ignoring spaces and
      line terminators, its lines spell out the words in order. */
  lemma {:induction false} BatchedKeepsText(words: seq<string>, maxLength: nat)
    requires maxLength >= 1
    ensures Squeeze(Seqs.Concat(Batched(words, maxLength))) == Squeeze(Seqs.Concat(words))
  {
    FoldCarries(words, maxLength);
    FlushCarries(Fold(words, maxLength));
  }

  /** `batchWords`. */
  method BatchWords(words: seq<string>, maxLength: nat := 10) returns (result: seq<string>)
    requires maxLength >= 1
    ensures result == Batched(words, maxLength)
  {
    result := [];
    var currentBatch := "";
    var i := 0;
    while i < |words|
      invariant 0 <= i <= |words|
      invariant Batching(result, currentBatch) == Fold(words[..i], maxLength)
    {
      var word := words[i];
      assert words[..i + 1][..i] == words[..i];
      if |word| > maxLength {
        if currentBatch != "" {
          result := result + [currentBatch];
          currentBatch := "";
        }
        result := result + HardSplit(word, maxLength);
      } else {
        if currentBatch == "" {
          currentBatch := word;
        } else {
          if |currentBatch| + 1 + |word| <= maxLength {
            currentBatch := currentBatch + " " + word;
          } else {
            result := result + [currentBatch];
            currentBatch := word;
          }
        }
      }
      i := i + 1;
    }
    assert words[..i] == words;
    if currentBatch != "" {
      result := result + [currentBatch];
    }
  }

  // ---------------------------------------------------------------------------
  // splitVariety

  /** `s.split(sep)` for a one-character separator. */
  function SplitOn(s: string, sep: char): (parts: seq<string>)
    ensures |parts| >= 1
    ensures forall i, j :: 0 <= i < |parts| && 0 <= j < |parts[i]| ==> parts[i][j] != sep
    decreases |s|
  {
    if s == [] then [""]
    else
      var rest := SplitOn(s[1..], sep);
      if s[0] == sep then [""] + rest
      else [[s[0]] + rest[0]] + rest[1..]
  }

  /** `parts.join(sep)`. */
  function JoinWith(parts: seq<string>, sep: char): string
    requires |parts| >= 1
    decreases |parts|
  {
    if |parts| == 1 then parts[0] else parts[0] + [sep] + JoinWith(parts[1..], sep)
  }

  /** Splitting on a character and joining with it gives the text back. */
  lemma {:induction false} SplitJoin(s: string, sep: char)
    ensures JoinWith(SplitOn(s, sep), sep) == s
    decreases |s|
  {
    if s != [] {
      var rest := SplitOn(s[1..], sep);
      SplitJoin(s[1..], sep);
      var parts := SplitOn(s, sep);
      if s[0] == sep {
        assert parts[1..] == rest;
      } else {
        assert parts[1..] == rest[1..];
        if |rest| > 1 {
          assert JoinWith(rest, sep) == rest[0] + [sep] + JoinWith(rest[1..], sep);
        }
      }
    }
  }

  /** `splitVariety(text, maxLength)`. */
  method SplitVariety(text: string, maxLength: nat := 10) returns (lines: seq<string>)
    requires maxLength >= 1
    ensures ' ' in text ==> lines == Batched(SplitOn(text, ' '), maxLength)
    ensures ' ' !in text ==> lines == HardSplit(text, maxLength)
  {
    if ' ' in text {
      var words := SplitOn(text, ' ');
      lines := BatchWords(words, maxLength);
    } else {
      lines := HardSplit(text, maxLength);
    }
  }

  /** Every line of `splitVariety` has 1 to `maxLength` characters, the empty
      name gives no line, and ignoring spaces and line terminators the lines
      spell out the name. */
  lemma {:induction false} SplitVarietyLines(text: string, maxLength: nat)
    requires maxLength >= 1
    ensures var lines := if ' ' in text then Batched(SplitOn(text, ' '), maxLength) else HardSplit(text, maxLength);
            && (forall i :: 0 <= i < |lines| ==> 1 <= |lines[i]| <= maxLength)
            && Squeeze(Seqs.Concat(lines)) == Squeeze(text)
            && (text == "" ==> lines == [])
  {
    if ' ' in text {
      var words := SplitOn(text, ' ');
      BatchedKeepsText(words, maxLength);
      JoinedSqueeze(words);
      SplitJoin(text, ' ');
    } else {
      HardSplitConcat(text, maxLength);
      Seqs.FilterFilter(text, NotTerminator, IsTextChar);
    }
  }

  /** Joining with spaces adds nothing Squeeze keeps. */
  lemma {:induction false} JoinedSqueeze(parts: seq<string>)
    requires |parts| >= 1
    ensures Squeeze(JoinWith(parts, ' ')) == Squeeze(Seqs.Concat(parts))
    decreases |parts|
  {
    if |parts| == 1 {
      Seqs.ConcatSingle(parts[0]);
      assert parts == [parts[0]];
    } else {
      JoinedSqueeze(parts[1..]);
      SqueezeAppend(parts[0] + [' '], JoinWith(parts[1..], ' '));
      SqueezeAppend(parts[0], [' ']);
      assert Squeeze([' ']) == Seqs.Filter([], IsTextChar) + [];
      SqueezeAppend(parts[0], Seqs.Concat(parts[1..]));
    }
  }
}
