/** The two streaming scanners of internal/bottle/verify.go: the relocation placeholder
    detector, and the reader that counts bytes and keeps the last ones in a ring. */
module Scanners {
  /** Bytes are written as characters. */
  type Byte = char
  type Bytes = seq<Byte>

  const ZERO: Byte := '\0'

  const PLACEHOLDERS: seq<Bytes> := [
    "@@HOMEBREW_PREFIX@@", "@@HOMEBREW_CELLAR@@", "@@HOMEBREW_REPOSITORY@@", "@@HOMEBREW_LIBRARY@@",
    "@@HOMEBREW_PERL@@", "@@HOMEBREW_JAVA@@"]

  // ----- Searching -----

  ghost predicate OccursAt(text: Bytes, pattern: Bytes, i: int) {
    0 <= i <= |text| - |pattern| && text[i..i + |pattern|] == pattern
  }

  ghost predicate Contains(text: Bytes, pattern: Bytes) { exists i :: OccursAt(text, pattern, i) }

  ghost predicate ContainsAny(text: Bytes, patterns: seq<Bytes>) {
    exists k | 0 <= k < |patterns| :: Contains(text, patterns[k])
  }

  /** bytes.Contains */
  method Search(text: Bytes, pattern: Bytes) returns (found: bool)
    ensures found <==> Contains(text, pattern)
  {
    for i := 0 to |text| + 1
      invariant forall j | 0 <= j < i :: !OccursAt(text, pattern, j)
    {
      if i + |pattern| <= |text| && text[i..i + |pattern|] == pattern {
        assert OccursAt(text, pattern, i);
        return true;
      }
    }
    return false;
  }

  function Longest(patterns: seq<Bytes>): (longest: nat)
    ensures forall k | 0 <= k < |patterns| :: |patterns[k]| <= longest
  {
    if patterns == [] then 0
    else
      var rest := Longest(patterns[..|patterns| - 1]);
      var last := |patterns[|patterns| - 1]|;
      if last > rest then last else rest
  }

  method MaxPatternBytes(patterns: seq<Bytes>) returns (longest: nat)
    ensures longest == Longest(patterns)
  {
    longest := 0;
    for k := 0 to |patterns|
      invariant longest == Longest(patterns[..k])
    {
      assert patterns[..k + 1][..k] == patterns[..k];
      if |patterns[k]| > longest {
        longest := |patterns[k]|;
      }
    }
    assert patterns[..|patterns|] == patterns;
  }

  function Suffix(text: Bytes, n: nat): Bytes { if n >= |text| then text else text[|text| - n..] }

  /** A pattern found in a longer text was there before, or lies in the kept tail and the rest. */
  lemma TailSuffices(text: Bytes, more: Bytes, pattern: Bytes, keep: nat)
    requires !Contains(text, pattern) && |pattern| <= keep + 1
    ensures Contains(text + more, pattern) <==> Contains(Suffix(text, keep) + more, pattern)
  {
    var tail := Suffix(text, keep);
    var cut := |text| - |tail|;
    var whole, part := text + more, tail + more;
    assert part == whole[cut..];
    if Contains(part, pattern) {
      var i :| OccursAt(part, pattern, i);
      OccursShifted(whole, cut, pattern, i + cut);
      assert OccursAt(whole, pattern, i + cut);
    }
    if Contains(whole, pattern) {
      var i :| OccursAt(whole, pattern, i);
      OccursLate(text, more, pattern, i);
      OccursShifted(whole, cut, pattern, i);
      assert OccursAt(part, pattern, i - cut);
    }
  }

  /** An occurrence at or after `cut` is one in the text from there on. */
  lemma OccursShifted(text: Bytes, cut: nat, pattern: Bytes, i: int)
    requires cut <= |text| && cut <= i
    ensures OccursAt(text, pattern, i) <==> OccursAt(text[cut..], pattern, i - cut)
  {
    if i <= |text| - |pattern| {
      SliceOfRest(text, cut, i, |pattern|);
    }
  }

  lemma SliceOfRest(text: Bytes, cut: nat, i: nat, n: nat)
    requires cut <= i <= i + n <= |text|
    ensures text[cut..][i - cut..i - cut + n] == text[i..i + n]
  {
  }

  lemma OccursLate(text: Bytes, more: Bytes, pattern: Bytes, i: int)
    requires !Contains(text, pattern) && OccursAt(text + more, pattern, i)
    ensures i + |pattern| > |text|
  {
    hide Contains;
    if i + |pattern| <= |text| {
      OccursEarly(text, more, pattern, i);
    }
  }

  lemma OccursEarly(text: Bytes, more: Bytes, pattern: Bytes, i: int)
    requires OccursAt(text + more, pattern, i) && i + |pattern| <= |text|
    ensures Contains(text, pattern)
  {
    assert (text + more)[i..i + |pattern|] == text[i..i + |pattern|];
    assert OccursAt(text, pattern, i);
  }

  lemma ContainsGrows(text: Bytes, more: Bytes, patterns: seq<Bytes>)
    requires ContainsAny(text, patterns)
    ensures ContainsAny(text + more, patterns)
  {
    var k :| 0 <= k < |patterns| && Contains(text, patterns[k]);
    var i :| OccursAt(text, patterns[k], i);
    assert (text + more)[i..i + |patterns[k]|] == text[i..i + |patterns[k]|];
    assert OccursAt(text + more, patterns[k], i);
  }

  /** The detector: finds a placeholder exactly when the bytes written so far hold one, however
      they are cut into writes. */
  class PlaceholderDetector {
    const patterns: seq<Bytes>
    var tail: Bytes
    var found: bool
    ghost var written: Bytes

    constructor (patterns: seq<Bytes>)
      requires SomePatterns(patterns)
      ensures Valid() && written == [] && this.patterns == patterns
    {
      this.patterns, tail, found, written := patterns, [], false, [];
      new;
      forall k | 0 <= k < |patterns| ensures !Contains([], patterns[k]) {
        assert forall i :: !OccursAt([], patterns[k], i);
      }
    }

    ghost predicate Valid()
      reads this
    {
      && SomePatterns(patterns)
      && (found <==> ContainsAny(written, patterns))
      && (!found ==> tail == Suffix(written, Longest(patterns) - 1))
    }

    method Write(p: Bytes)
      requires Valid()
      modifies this`tail, this`found, this`written
      ensures Valid() && written == old(written) + p
    {
      hide Contains, ContainsAny, Longest, Suffix;
      if found {
        ContainsGrows(written, p, patterns);
        written := written + p;
        return;
      }
      var combined := tail + p;
      found := SearchAny(combined, patterns);
      var longest := MaxPatternBytes(patterns);
      tail := KeepTail(combined, longest);
      TailSufficesForAll(written, p, patterns);
      SuffixOfTail(written, p, Longest(patterns) - 1);
      written := written + p;
    }
  }

  /** The bytes kept for the next write: one fewer than the longest pattern. */
  method KeepTail(combined: Bytes, longest: nat) returns (tail: Bytes)
    requires longest > 0
    ensures tail == Suffix(combined, longest - 1)
  {
    var keep := longest - 1;
    if keep > |combined| {
      keep := |combined|;
    }
    return combined[|combined| - keep..];
  }

  /** There are patterns, and none is empty. */
  ghost predicate SomePatterns(patterns: seq<Bytes>) {
    |patterns| > 0 && Longest(patterns) > 0 && forall k | 0 <= k < |patterns| :: patterns[k] != []
  }

  lemma PlaceholdersFit()
    ensures SomePatterns(PLACEHOLDERS) && Longest(PLACEHOLDERS) == 23
  {
    assert PLACEHOLDERS[..5][..4] == PLACEHOLDERS[..4];
    assert PLACEHOLDERS[..4][..3] == PLACEHOLDERS[..3];
    assert PLACEHOLDERS[..3][..2] == PLACEHOLDERS[..2];
    assert PLACEHOLDERS[..2][..1] == PLACEHOLDERS[..1];
    assert PLACEHOLDERS[..1][..0] == [];
    assert Longest(PLACEHOLDERS[..1]) == 19;
    assert Longest(PLACEHOLDERS[..2]) == 19;
    assert Longest(PLACEHOLDERS[..3]) == 23;
    assert Longest(PLACEHOLDERS[..4]) == 23;
    assert Longest(PLACEHOLDERS[..5]) == 23;
  }

  method SearchAny(text: Bytes, patterns: seq<Bytes>) returns (found: bool)
    ensures found <==> ContainsAny(text, patterns)
  {
    for k := 0 to |patterns|
      invariant forall j | 0 <= j < k :: !Contains(text, patterns[j])
    {
      var here := Search(text, patterns[k]);
      if here {
        return true;
      }
    }
    return false;
  }

  lemma TailSufficesForAll(text: Bytes, more: Bytes, patterns: seq<Bytes>)
    requires !ContainsAny(text, patterns) && Longest(patterns) > 0
    ensures ContainsAny(text + more, patterns) <==> ContainsAny(Suffix(text, Longest(patterns) - 1) + more, patterns)
  {
    hide Contains, Suffix;
    forall k | 0 <= k < |patterns|
      ensures Contains(text + more, patterns[k]) <==> Contains(Suffix(text, Longest(patterns) - 1) + more, patterns[k])
    {
      TailSuffices(text, more, patterns[k], Longest(patterns) - 1);
    }
  }

  lemma SuffixOfTail(text: Bytes, more: Bytes, keep: nat)
    ensures Suffix(text + more, keep) == Suffix(Suffix(text, keep) + more, keep)
  {
  }

  function Joined(chunks: seq<Bytes>): Bytes {
    if chunks == [] then [] else Joined(chunks[..|chunks| - 1]) + chunks[|chunks| - 1]
  }

  /** Writing any cut of a stream finds what a search of the whole stream would. */
  method Detect(patterns: seq<Bytes>, chunks: seq<Bytes>) returns (found: bool)
    requires SomePatterns(patterns)
    ensures found <==> ContainsAny(Joined(chunks), patterns)
  {
    var detector := new PlaceholderDetector(patterns);
    for k := 0 to |chunks|
      invariant detector.Valid() && detector.patterns == patterns && detector.written == Joined(chunks[..k])
    {
      assert chunks[..k + 1][..k] == chunks[..k];
      detector.Write(chunks[k]);
    }
    assert chunks[..|chunks|] == chunks;
    return detector.found;
  }

  // ----- The ring -----

  class CountingTailReader {
    const tail: array<Byte>
    var count: nat
    var pos: nat
    var full: bool
    ghost var stream: Bytes

    constructor (tailBytes: nat)
      requires tailBytes > 0
      ensures Valid() && stream == [] && tail.Length == tailBytes && fresh(tail)
    {
      tail := new Byte[tailBytes](_ => ZERO);
      count, pos, full, stream := 0, 0, false, [];
    }

    ghost predicate Valid()
      reads this, tail
    {
      Holds(tail[..], pos, full, stream) && count == |stream|
    }

    method Read(p: Bytes)
      requires Valid()
      modifies this, tail
      ensures Valid() && stream == old(stream) + p
    {
      hide Holds;
      for k := 0 to |p|
        invariant Holds(tail[..], pos, full, stream) && stream == old(stream) + p[..k] && count == |old(stream)|
      {
        assert p[..k + 1] == p[..k] + [p[k]];
        Take(p[k]);
      }
      assert p[..|p|] == p;
      count := count + |p|;
    }

    method Take(b: Byte)
      requires Holds(tail[..], pos, full, stream)
      modifies this`pos, this`full, this`stream, tail
      ensures stream == old(stream) + [b]
      ensures Holds(tail[..], pos, full, stream)
    {
      tail[pos] := b;
      pos := pos + 1;
      if pos == tail.Length {
        pos := 0;
        full := true;
      }
      stream := stream + [b];
    }

    method Last(n: int) returns (out: Bytes, ok: bool)
      requires Valid()
      ensures ok <==> 0 < n <= tail.Length && n <= |stream|
      ensures ok ==> out == stream[|stream| - n..]
    {
      if n <= 0 || n > tail.Length || n > count {
        return [], false;
      }
      var start := pos - n;
      if start < 0 {
        start := start + tail.Length;
      }
      out := [];
      for i := 0 to n
        invariant |out| == i && forall j | 0 <= j < i :: out[j] == stream[|stream| - n + j]
      {
        WrapOnce(start + i, tail.Length);
        var slot := (start + i) % tail.Length;
        assert tail[..][slot] == stream[|stream| - n + i];
        out := out + [tail[slot]];
      }
      return out, true;
    }

    method TailAllZero() returns (zero: bool)
      requires Valid()
      ensures zero <==>
        |stream| >= tail.Length && forall i | |stream| - tail.Length <= i < |stream| :: stream[i] == ZERO
    {
      if !full {
        return false;
      }
      for i := 0 to tail.Length
        invariant forall j | 0 <= j < i :: tail[j] == ZERO
      {
        if tail[i] != ZERO {
          assert tail[..][i] == stream[Place(tail.Length, pos, |stream|, i)];
          return false;
        }
      }
      forall i | |stream| - tail.Length <= i < |stream| ensures stream[i] == ZERO {
        var slot := if i >= |stream| - pos then i - |stream| + pos else i - |stream| + pos + tail.Length;
        assert tail[..][slot] == stream[Place(tail.Length, pos, |stream|, slot)];
      }
      return true;
    }
  }

  /** The place in the stream of the byte in a slot of a full ring. */
  function Place(size: int, pos: int, length: int, slot: int): int {
    if slot < pos then length - pos + slot else length - pos + slot - size
  }

  /** The ring holds the last bytes of the stream; `pos` is the slot written next. */
  ghost predicate Holds(ring: Bytes, pos: nat, full: bool, stream: Bytes) {
    && pos < |ring|
    && (full <==> |stream| >= |ring|)
    && (!full ==> pos == |stream|)
    && (forall slot | 0 <= slot < |ring| && (full || slot < pos) ::
          && 0 <= Place(|ring|, pos, |stream|, slot) < |stream|
          && ring[slot] == stream[Place(|ring|, pos, |stream|, slot)])
  }

  lemma WrapOnce(i: int, n: int)
    requires 0 <= i < 2 * n
    ensures i % n == if i < n then i else i - n
  {
    if i < n {
    } else {
      assert i == n + (i - n);
    }
  }
}
