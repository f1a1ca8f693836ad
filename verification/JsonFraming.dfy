/**
 The line-based framer that cuts a text into JSON objects by counting braces at line ends, the
 printer it undoes, and the exact condition under which it does.
 */
module JsonFraming {
  import opened Options

  // ----- Counting braces -----

  function Weight(c: char): int {
    if c == '{' then 1 else if c == '}' then -1 else 0
  }

  /** Opening minus closing braces. */
  function Net(s: string): int {
    if s == [] then 0 else Net(s[..|s| - 1]) + Weight(s[|s| - 1])
  }

  lemma {:induction false} NetConcat(a: string, b: string)
    ensures Net(a + b) == Net(a) + Net(b)
  {
    if b == [] {
      assert a + b == a;
    } else {
      var front := b[..|b| - 1];
      NetConcat(a, front);
      assert (a + b)[..|a + b| - 1] == a + front;
    }
  }

  lemma NetSnoc(s: string, c: char)
    ensures Net(s + [c]) == Net(s) + Weight(c)
  {
    assert (s + [c])[..|s|] == s;
  }

  /** The net count is opening minus closing braces, of any text. */
  lemma {:induction false} NetCounts(s: string)
    ensures Net(s) == multiset(s)['{'] as int - multiset(s)['}'] as int
  {
    if s == [] {
    } else {
      NetCounts(s[..|s| - 1]);
      assert s == s[..|s| - 1] + [s[|s| - 1]];
    }
  }

  // ----- What a frame is -----

  /** The position of the first opening brace, or the end. */
  function FindBrace(s: string): (p: nat)
    ensures p <= |s|
    ensures forall i :: 0 <= i < p ==> s[i] != '{'
    ensures p < |s| ==> s[p] == '{'
  {
    if s == [] || s[0] == '{' then 0 else 1 + FindBrace(s[1..])
  }

  predicate LineEnd(t: string, e: nat) {
    0 < e <= |t| && (t[e - 1] == '\n' || e == |t|)
  }

  /** The text up to here ends a line and has as many closing as opening braces. */
  predicate FrameEnd(t: string, e: nat) {
    LineEnd(t, e) && Net(t[..e]) == 0
  }

  predicate FirstFrameEnd(t: string, e: nat) {
    FrameEnd(t, e) && forall k: nat :: k < e ==> !FrameEnd(t, k)
  }

  function FindFrameEnd(t: string, from: nat): (r: Option<nat>)
    requires from <= |t|
    ensures r.Some? ==> from < r.value && FrameEnd(t, r.value) && forall k :: from < k < r.value ==> !FrameEnd(t, k)
    ensures r.None? ==> forall k :: from < k <= |t| ==> !FrameEnd(t, k)
    decreases |t| - from
  {
    if from == |t| then None
    else if FrameEnd(t, from + 1) then Some(from + 1)
    else FindFrameEnd(t, from + 1)
  }

  /** Every line comes back terminated, also an unterminated last one. */
  function Terminated(s: string): string {
    if s != [] && s[|s| - 1] == '\n' then s else s + ['\n']
  }

  datatype Reading = Reading(frame: Option<string>, rest: string)

  /** One read: skip to the first brace, then cut at the first line end with balanced braces. */
  function NextFrame(text: string): Reading {
    var t := text[FindBrace(text)..];
    match FindFrameEnd(t, 0)
    case None => Reading(None, [])
    case Some(e) => Reading(Some(Terminated(t[..e])), t[e..])
  }

  /** The result is the shortest balanced whole-line text from the first brace on; none means there is no such text. */
  lemma NextFrameIsShortest(text: string)
    ensures var t := text[FindBrace(text)..];
            && (NextFrame(text).frame.Some? <==> exists e: nat :: FrameEnd(t, e))
            && (forall e: nat :: FirstFrameEnd(t, e) ==> NextFrame(text) == Reading(Some(Terminated(t[..e])), t[e..]))
            && (NextFrame(text).frame.None? ==> NextFrame(text).rest == [])
  {
    var t := text[FindBrace(text)..];
    forall e: nat | FirstFrameEnd(t, e)
      ensures FindFrameEnd(t, 0) == Some(e)
    {
      var found := FindFrameEnd(t, 0);
      assert found.Some? ==> FrameEnd(t, found.value) && 0 < e;
    }
  }

  predicate Balanced(s: string) {
    multiset(s)['{'] == multiset(s)['}']
  }

  /** The text up to here ends a line, and has as many closing as opening braces. */
  lemma FrameEndCounts(t: string, e: nat)
    requires 0 < e <= |t|
    ensures FrameEnd(t, e) <==> (t[e - 1] == '\n' || e == |t|) && Balanced(t[..e])
  {
    NetCounts(t[..e]);
  }

  lemma FirstCut(t: string, end: nat)
    requires FirstFrameEnd(t, end)
    ensures var cut := t[..end];
            && cut != [] && t == cut + t[end..] && Balanced(cut)
            && (cut[|cut| - 1] == '\n' || t[end..] == [])
            && forall e :: 0 < e < |cut| && cut[e - 1] == '\n' ==> !Balanced(cut[..e])
  {
    var cut := t[..end];
    FrameEndCounts(t, end);
    forall e | 0 < e < |cut| && cut[e - 1] == '\n'
      ensures !Balanced(cut[..e])
    {
      assert cut[..e] == t[..e];
      FrameEndCounts(t, e);
    }
  }

  /**
   One read in terms of the text alone, from its first brace on: `cut` is whole lines up to the first
   line end with as many closing as opening braces; it comes back with its last line terminated, and
   the rest is left.
   */
  lemma ReadCutsTheText(text: string) returns (cut: string)
    requires NextFrame(text).frame.Some?
    ensures cut != [] && text[FindBrace(text)..] == cut + NextFrame(text).rest
    ensures Balanced(cut) && forall e :: 0 < e < |cut| && cut[e - 1] == '\n' ==> !Balanced(cut[..e])
    ensures cut[|cut| - 1] == '\n' || NextFrame(text).rest == []
    ensures NextFrame(text).frame.value == if cut[|cut| - 1] == '\n' then cut else cut + ['\n']
  {
    var t := text[FindBrace(text)..];
    var end := FindFrameEnd(t, 0).value;
    cut := t[..end];
    FirstCut(t, end);
  }

  /** There is no frame exactly if no line end after the first brace has as many closing as opening braces. */
  lemma NoFrameExactlyWhen(text: string)
    ensures var t := text[FindBrace(text)..];
            NextFrame(text).frame.None? <==>
            forall e :: 0 < e <= |t| && (t[e - 1] == '\n' || e == |t|) ==> !Balanced(t[..e])
  {
    var t := text[FindBrace(text)..];
    match FindFrameEnd(t, 0)
    case Some(end) =>
      FrameEndCounts(t, end);
    case None =>
      forall e | 0 < e <= |t| && (t[e - 1] == '\n' || e == |t|) ensures !Balanced(t[..e]) {
        FrameEndCounts(t, e);
      }
  }

  // ----- Printing and reading back -----

  predicate BraceFree(s: string) {
    '{' !in s
  }

  /** A text that is its own frame. */
  predicate Framed(f: string) {
    && f != [] && f[0] == '{' && f[|f| - 1] == '\n'
    && Net(f) == 0
    && forall e: nat :: e < |f| ==> !FrameEnd(f, e)
  }

  lemma {:induction false} FindBraceSkips(noise: string, t: string)
    requires BraceFree(noise) && (t == [] || t[0] == '{')
    ensures FindBrace(noise + t) == |noise|
  {
    if noise == [] {
      assert noise + t == t;
    } else {
      FindBraceSkips(noise[1..], t);
      assert (noise + t)[1..] == noise[1..] + t;
    }
  }

  lemma PrefixFrameEnd(f: string, rest: string, e: nat)
    requires f != [] && f[|f| - 1] == '\n' && e <= |f|
    ensures FrameEnd(f + rest, e) <==> FrameEnd(f, e)
  {
    assert (f + rest)[..e] == f[..e];
  }

  /** Reading skips brace-free text and returns the framed text in front, leaving what follows it. */
  lemma ReadsBackOne(noise: string, f: string, rest: string)
    requires BraceFree(noise) && Framed(f)
    ensures NextFrame(noise + f + rest) == Reading(Some(f), rest)
  {
    var text := noise + f + rest;
    FindBraceSkips(noise, f + rest);
    assert text == noise + (f + rest);
    var t := f + rest;
    assert text[FindBrace(text)..] == t;
    forall k: nat | k <= |f| ensures FrameEnd(t, k) <==> k == |f| {
      PrefixFrameEnd(f, rest, k);
      assert f[..|f|] == f;
    }
    NextFrameIsShortest(text);
    assert FirstFrameEnd(t, |f|);
    assert t[..|f|] == f && t[|f|..] == rest;
  }

  /** A brace-delimited, line-terminated text survives in every context exactly if it is framed. */
  lemma SurvivesExactlyWhenFramed(f: string)
    requires f != [] && f[0] == '{' && f[|f| - 1] == '\n'
    ensures (forall rest: string :: NextFrame(f + rest) == Reading(Some(f), rest)) <==> Framed(f)
  {
    if Framed(f) {
      forall rest: string ensures NextFrame(f + rest) == Reading(Some(f), rest) {
        ReadsBackOne([], f, rest);
        assert [] + f + rest == f + rest;
      }
    }
    if forall rest: string :: NextFrame(f + rest) == Reading(Some(f), rest) {
      assert f + [] == f;
      assert NextFrame(f + []) == Reading(Some(f), []);
      FindBraceSkips([], f);
      assert [] + f == f && f[0..] == f;
      var e := FindFrameEnd(f, 0).value;
      assert f[e..] == [];
      assert f[..|f|] == f;
      forall k: nat | k < |f| ensures !FrameEnd(f, k) {
      }
    }
  }

  datatype Item = Item(noise: string, frame: string)

  predicate Printable(items: seq<Item>) {
    forall i :: 0 <= i < |items| ==> BraceFree(items[i].noise) && Framed(items[i].frame)
  }

  /** Frames with arbitrary brace-free text before each of them and at the end. */
  function Print(items: seq<Item>, tail: string): string {
    if items == [] then tail else items[0].noise + items[0].frame + Print(items[1..], tail)
  }

  function Frames(items: seq<Item>): (fs: seq<string>)
    ensures |fs| == |items|
    ensures forall i :: 0 <= i < |items| ==> fs[i] == items[i].frame
  {
    if items == [] then [] else [items[0].frame] + Frames(items[1..])
  }

  /** All frames of a text, read one after the other until there are none. */
  function ReadAll(text: string): seq<string>
    decreases |text|
  {
    var r := NextFrame(text);
    if r.frame.None? then [] else [r.frame.value] + ReadAll(r.rest)
  }

  lemma TailHasNoFrame(tail: string)
    requires BraceFree(tail)
    ensures NextFrame(tail) == Reading(None, [])
  {
    FindBraceSkips(tail, []);
    assert tail + [] == tail;
  }

  /** Repeated reading undoes printing: the same frames, in order, and then none. */
  lemma {:induction false} ReadingUndoesPrinting(items: seq<Item>, tail: string)
    requires Printable(items) && BraceFree(tail)
    ensures ReadAll(Print(items, tail)) == Frames(items)
  {
    if items == [] {
      TailHasNoFrame(tail);
    } else {
      var rest := Print(items[1..], tail);
      ReadsBackOne(items[0].noise, items[0].frame, rest);
      ReadingUndoesPrinting(items[1..], tail);
    }
  }

  // ----- Reading and printing back -----

  lemma TerminatedAt(s: string, e: nat)
    requires e <= |s|
    ensures Terminated(s)[..e] == s[..e]
  {
  }

  /** Whatever the text, a frame that is returned is framed: a terminated text that is its own frame. */
  lemma FrameIsFramed(text: string)
    requires NextFrame(text).frame.Some?
    ensures Framed(NextFrame(text).frame.value)
  {
    var t := text[FindBrace(text)..];
    var cut := t[..FindFrameEnd(t, 0).value];
    var f := Terminated(cut);
    assert cut[..|cut|] == cut;
    if f != cut {
      NetSnoc(cut, '\n');
    }
    forall e: nat | e < |f| ensures !FrameEnd(f, e) {
      TerminatedAt(cut, e);
      assert e <= |cut| && t[..e] == cut[..e];
      assert FrameEnd(f, e) ==> FrameEnd(t, e);
    }
  }

  /** Frames printed one after the other. */
  function Bare(fs: seq<string>): (items: seq<Item>)
    ensures |items| == |fs| && forall i :: 0 <= i < |fs| ==> items[i] == Item([], fs[i])
  {
    seq(|fs|, i requires 0 <= i < |fs| => Item([], fs[i]))
  }

  lemma {:induction false} AllFramesAreFramed(text: string)
    ensures forall i :: 0 <= i < |ReadAll(text)| ==> Framed(ReadAll(text)[i])
    decreases |text|
  {
    var r := NextFrame(text);
    if r.frame.None? {
    } else {
      FrameIsFramed(text);
      AllFramesAreFramed(r.rest);
    }
  }

  /** Reading any text, printing the frames bare and reading again gives the same frames. */
  lemma RereadingChangesNothing(text: string)
    ensures ReadAll(Print(Bare(ReadAll(text)), [])) == ReadAll(text)
  {
    AllFramesAreFramed(text);
    ReadingUndoesPrinting(Bare(ReadAll(text)), []);
  }

  // ----- The reader -----

  /** A text is a line and what follows it; only the last line may lack its terminator. */
  predicate LineThen(text: string, line: string, rest: string) {
    text == line + ['\n'] + rest || (text == line && rest == [])
  }

  class InputStream {
    var rest: string

    constructor (text: string)
      ensures rest == text
    {
      rest := text;
    }

    /** A line without its terminator; fails only when no character is left. */
    method GetLine() returns (ok: bool, line: string)
      modifies this
      ensures ok <==> old(rest) != []
      ensures ok ==> '\n' !in line && LineThen(old(rest), line, rest)
      ensures ok ==> old(rest) == line + ['\n'] + rest || (old(rest) == line && rest == [])
      ensures !ok ==> rest == []
    {
      if rest == [] {
        return false, [];
      }
      var n := 0;
      while n < |rest| && rest[n] != '\n'
        invariant 0 <= n <= |rest| && '\n' !in rest[..n]
      {
        n := n + 1;
      }
      ok, line := true, rest[..n];
      if n == |rest| {
        rest := [];
      } else {
        assert rest == rest[..n] + ['\n'] + rest[n + 1..];
        rest := rest[n + 1..];
      }
    }
  }

  /** Counts one line's braces on top of `depth`. */
  method CountBraces(line: string, start: int) returns (depth: int)
    ensures depth == start + Net(line)
    ensures depth == start + multiset(line)['{'] - multiset(line)['}']
  {
    NetCounts(line);
    depth := start;
    for i := 0 to |line|
      invariant depth == start + Net(line[..i])
    {
      NetSnoc(line[..i], line[i]);
      assert line[..i + 1] == line[..i] + [line[i]];
      if line[i] == '{' {
        depth := depth + 1;
      } else if line[i] == '}' {
        depth := depth - 1;
      }
    }
    assert line[..|line|] == line;
  }

  lemma NoLineEndInside(t: string, c: nat, line: string, k: nat)
    requires c + |line| <= |t| && t[c..c + |line|] == line && '\n' !in line
    requires c < k <= c + |line| && k < |t|
    ensures !LineEnd(t, k)
  {
    assert t[k - 1] == line[k - 1 - c];
  }

  /** The line just taken ends at `c'`; nothing in between ends a line. */
  lemma TakeLine(t: string, c: nat, line: string, rest: string) returns (c': nat)
    requires c <= |t| && t[c..] != [] && '\n' !in line
    requires LineThen(t[c..], line, rest)
    ensures c < c' <= |t| && LineEnd(t, c') && t[c'..] == rest
    ensures Net(t[..c']) == Net(t[..c]) + Net(line)
    ensures Terminated(t[..c']) == t[..c] + line + ['\n']
    ensures forall k: nat :: c < k < c' ==> !FrameEnd(t, k)
  {
    var full := t[c..];
    assert full[..|line|] == line;
    assert t[c..c + |line|] == line;
    if full == line + ['\n'] + rest {
      c' := c + |line| + 1;
      assert full[|line|] == '\n';
      assert t[..c'] == t[..c] + line + ['\n'];
      NetConcat(t[..c], line);
      NetSnoc(t[..c] + line, '\n');
      assert t[c'..] == full[|line| + 1..] == rest;
    } else {
      c' := |t|;
      assert t[..c'] == t[..c] + line;
      NetConcat(t[..c], line);
      assert line[|line| - 1] in line;
    }
    forall k: nat | c < k < c' ensures !FrameEnd(t, k) {
      NoLineEndInside(t, c, line, k);
    }
  }

  lemma {:induction false} SkipNoise(noise: string, rest: string)
    requires BraceFree(noise)
    ensures (noise + rest)[FindBrace(noise + rest)..] == rest[FindBrace(rest)..]
  {
    if noise == [] {
      assert noise + rest == rest;
    } else {
      SkipNoise(noise[1..], rest);
      assert (noise + rest)[1..] == noise[1..] + rest;
      assert (noise + rest)[0] == noise[0];
    }
  }

  /** A line without a brace does not move the place where the frame starts. */
  lemma SkipLine(before: string, line: string, rest: string)
    requires BraceFree(line)
    requires LineThen(before, line, rest)
    ensures before[FindBrace(before)..] == rest[FindBrace(rest)..]
  {
    if before == line + ['\n'] + rest {
      SkipNoise(line + ['\n'], rest);
    } else {
      SkipNoise(line, []);
      assert line + [] == line;
    }
  }

  lemma StartsAt(text: string, skipped: string, tail: string)
    requires text == skipped + tail && BraceFree(skipped) && tail != [] && tail[0] == '{'
    ensures text[FindBrace(text)..] == tail
  {
    SkipNoise(skipped, tail);
    assert tail[0..] == tail;
  }

  lemma Regroup(a: string, b: string, c: string, d: string)
    ensures a + b + c + d == a + (b + c + d)
  {
  }

  lemma SplitAtBrace(line: string) returns (skipped: string, kept: string)
    requires FindBrace(line) < |line|
    ensures line == skipped + kept && BraceFree(skipped)
    ensures kept == line[FindBrace(line)..] && kept != [] && kept[0] == '{'
  {
    skipped, kept := line[..FindBrace(line)], line[FindBrace(line)..];
  }

  /** The first line with a brace: the frame starts at that brace. */
  lemma StartLine(before: string, line: string, rest: string)
    requires FindBrace(line) < |line| && LineThen(before, line, rest)
    ensures LineThen(before[FindBrace(before)..], line[FindBrace(line)..], rest)
  {
    var skipped, kept := SplitAtBrace(line);
    StartKept(before, skipped, kept, rest);
  }

  lemma StartKept(before: string, skipped: string, kept: string, rest: string)
    requires BraceFree(skipped) && kept != [] && kept[0] == '{' && LineThen(before, skipped + kept, rest)
    ensures LineThen(before[FindBrace(before)..], kept, rest)
  {
    if before == skipped + kept + ['\n'] + rest {
      var tail := kept + ['\n'] + rest;
      Regroup(skipped, kept, ['\n'], rest);
      assert tail[0] == kept[0];
      StartsAt(before, skipped, tail);
    } else {
      StartsAt(before, skipped, kept);
    }
  }

  /** The reader's variables after taking `c` characters from the first brace on. */
  ghost predicate Collecting(t: string, c: nat, rest: string, collected: string, depth: int) {
    && c <= |t| && t[c..] == rest && depth == Net(t[..c])
    && (if c == 0 then collected == [] else LineEnd(t, c) && collected == Terminated(t[..c]))
    && forall k: nat :: k < c ==> !FrameEnd(t, k)
  }

  lemma CollectLine(t: string, c: nat, line: string, before: string, rest: string, collected: string, depth: int)
    returns (c': nat)
    requires Collecting(t, c, before, collected, depth) && !FrameEnd(t, c)
    requires before != [] && '\n' !in line && LineThen(before, line, rest)
    ensures c' > 0 && Collecting(t, c', rest, collected + line + ['\n'], depth + Net(line))
  {
    c' := TakeLine(t, c, line, rest);
    assert collected == t[..c];
  }

  /** Balanced after a line: this is the frame. Out of lines before that: there is none. */
  lemma CollectedFrame(text: string, c: nat, rest: string, collected: string, depth: int)
    requires Collecting(text[FindBrace(text)..], c, rest, collected, depth)
    ensures c > 0 && depth == 0 ==> NextFrame(text) == Reading(Some(collected), rest)
    ensures c > 0 && depth != 0 ==> !FrameEnd(text[FindBrace(text)..], c)
    ensures rest == [] && !FrameEnd(text[FindBrace(text)..], c) ==> NextFrame(text) == Reading(None, [])
  {
    var t := text[FindBrace(text)..];
    NextFrameIsShortest(text);
    if c > 0 && depth == 0 {
      assert FirstFrameEnd(t, c);
    }
  }

  /** One read of the stream returns the next frame of its text and leaves the text after it. */
  method ReadNextJsonObject(input: InputStream) returns (json: Option<string>)
    modifies input
    ensures Reading(json, input.rest) == NextFrame(old(input.rest))
  {
    ghost var text := input.rest;
    ghost var t := text[FindBrace(text)..];
    ghost var c := 0;
    var collected := "";
    var depth := 0;
    var started := false;
    while true
      invariant !started ==> input.rest[FindBrace(input.rest)..] == t && c == 0 && collected == "" && depth == 0
      invariant started ==> Collecting(t, c, input.rest, collected, depth) && !FrameEnd(t, c)
      decreases |input.rest|
    {
      ghost var before := input.rest;
      var ok, line := input.GetLine();
      if !ok {
        break;
      }
      if !started {
        var p := FindBrace(line);
        if p == |line| {
          SkipLine(before, line, input.rest);
          continue;
        }
        StartLine(before, line, input.rest);
        started := true;
        line := line[p..];
        before := t;
      }
      c := CollectLine(t, c, line, before, input.rest, collected, depth);
      collected := collected + line + ['\n'];
      depth := CountBraces(line, depth);
      CollectedFrame(text, c, input.rest, collected, depth);
      if started && depth == 0 {
        return Some(collected);
      }
    }
    CollectedFrame(text, c, input.rest, collected, depth);
    return None;
  }
}
