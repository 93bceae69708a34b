/**
 * Two of the panel's inputs that arrive a read at a time: the tailscale status it counts peers in, and
 * the terminal input it strips escape sequences from. What comes out does not depend on the cuts.
 */
module ByteStreams {
  import opened Common

  // ---------------------------------------------------------------- counting peers

  const BUFFER := 4096

  /** What follows the last newline. */
  function LastLine(text: string): string {
    if text == "" || text[|text| - 1] == '\n' then "" else LastLine(text[..|text| - 1]) + [text[|text| - 1]]
  }

  /** The lines that a newline ends. */
  function Lines(text: string): seq<string> {
    if text == "" then []
    else if text[|text| - 1] == '\n' then Lines(text[..|text| - 1]) + [LastLine(text[..|text| - 1])]
    else Lines(text[..|text| - 1])
  }

  function Unlines(lines: seq<string>): string {
    if lines == [] then "" else Unlines(lines[..|lines| - 1]) + lines[|lines| - 1] + "\n"
  }

  /** The lines and what is left over are the text, and no line holds a newline. */
  lemma {:induction false} LinesMakeText(text: string)
    ensures Unlines(Lines(text)) + LastLine(text) == text
    ensures '\n' !in LastLine(text) && forall l :: l in Lines(text) ==> '\n' !in l
  {
    if text != "" {
      var init := text[..|text| - 1];
      LinesMakeText(init);
      assert text == init + [text[|text| - 1]];
      if text[|text| - 1] == '\n' {
        assert Lines(text)[..|Lines(text)| - 1] == Lines(init);
      }
    }
  }

  function Peers(lines: seq<string>): nat {
    if lines == [] then 0 else Peers(lines[..|lines| - 1]) + (if "100." <= lines[|lines| - 1] then 1 else 0)
  }

  /** A peer is a line whose first four characters are an address in 100. */
  lemma {:induction false} PeersAreAddresses(lines: seq<string>, l: string)
    ensures Peers([]) == 0
    ensures Peers(lines + [l]) == Peers(lines) + if |l| >= 4 && l[0] == '1' && l[1] == '0' && l[2] == '0' && l[3] == '.' then 1 else 0
  {
    assert (lines + [l])[..|lines|] == lines;
    assert "100." <= l <==> |l| >= 4 && l[..4] == "100.";
    if |l| >= 4 {
      assert l[..4] == [l[0], l[1], l[2], l[3]];
    }
  }

  lemma AfterChar(seen: string, c: char)
    ensures c == '\n' ==> LastLine(seen + [c]) == "" && Peers(Lines(seen + [c])) == Peers(Lines(seen)) + if "100." <= LastLine(seen) then 1 else 0
    ensures c != '\n' ==> LastLine(seen + [c]) == LastLine(seen) + [c] && Lines(seen + [c]) == Lines(seen)
  {
    var next := seen + [c];
    assert next[..|next| - 1] == seen;
    if c == '\n' {
      assert Lines(next) == Lines(seen) + [LastLine(seen)];
      assert Lines(next)[..|Lines(next)| - 1] == Lines(seen);
    }
  }

  class PeerCounter {
    var line: string
    var count: nat

    constructor ()
      ensures line == "" && count == 0
    {
      line, count := "", 0;
    }

    /** Having read `before`, the buffer is the start of the unfinished line. */
    ghost predicate Read(before: string)
      reads this
    {
      line == Take(LastLine(before), BUFFER - 1) && count == Peers(Lines(before))
    }

    method Drain(block: string, ghost before: string)
      requires Read(before)
      modifies this
      ensures Read(before + block)
    {
      hide LastLine, Lines, Peers;
      assert before + block[..0] == before;
      for i := 0 to |block|
        invariant Read(before + block[..i])
      {
        ghost var seen := before + block[..i];
        assert before + block[..i + 1] == seen + [block[i]];
        AfterChar(seen, block[i]);
        if block[i] == '\n' {
          assert "100." <= LastLine(seen) <==> "100." <= line;
          if "100." <= line {
            count := count + 1;
          }
          line := "";
        } else if |line| + 1 < BUFFER {
          line := line + [block[i]];
        }
      }
      assert block[..|block|] == block;
    }

    /** Every read until the end. The count is that of the terminated lines that begin with an address,
        for every way the stream is cut into reads. */
    method DrainAll(blocks: seq<string>)
      requires line == "" && count == 0
      modifies this
      ensures count == Peers(Lines(Concat(blocks)))
    {
      for i := 0 to |blocks|
        invariant Read(Concat(blocks[..i]))
      {
        assert blocks[..i + 1][..i] == blocks[..i];
        Drain(blocks[i], Concat(blocks[..i]));
      }
      assert blocks[..|blocks|] == blocks;
    }
  }

  // ---------------------------------------------------------------- terminal input

  const ESC := '\U{1B}'

  predicate EndsEscape(c: char) {
    'a' <= c <= 'z' || 'A' <= c <= 'Z' || c == '~'
  }

  /** Just past the escape sequence whose body starts at `i`, or the end if it is not finished. */
  function AfterEscape(s: string, i: nat): (r: nat)
    requires i <= |s|
    ensures i <= r <= |s|
    decreases |s| - i
  {
    if i == |s| then i else if EndsEscape(s[i]) then i + 1 else AfterEscape(s, i + 1)
  }

  /** The input with its escape sequences taken out whole, introducer included. */
  function Plain(s: string): string
    decreases |s|
  {
    if s == "" then ""
    else if s[0] == ESC then Plain(s[AfterEscape(s, 1)..])
    else [s[0]] + Plain(s[1..])
  }

  /** No introducer is left in what is dispatched. */
  lemma {:induction false} NoIntroducerIsDispatched(s: string)
    ensures ESC !in Plain(s)
    decreases |s|
  {
    if s != "" {
      NoIntroducerIsDispatched(if s[0] == ESC then s[AfterEscape(s, 1)..] else s[1..]);
    }
  }

  /** The same a character at a time, from outside a sequence or inside one. */
  function Dispatched(inEscape: bool, s: string): string
    decreases |s|
  {
    if s == "" then ""
    else if inEscape then Dispatched(!EndsEscape(s[0]), s[1..])
    else if s[0] == ESC then Dispatched(true, s[1..])
    else [s[0]] + Dispatched(false, s[1..])
  }

  predicate Escaping(inEscape: bool, s: string)
    decreases |s|
  {
    if s == "" then inEscape
    else if inEscape then Escaping(!EndsEscape(s[0]), s[1..])
    else Escaping(s[0] == ESC, s[1..])
  }

  lemma {:induction false} EscapeIsSkipped(s: string, i: nat)
    requires i <= |s|
    ensures Dispatched(true, s[i..]) == Dispatched(false, s[AfterEscape(s, i)..])
    decreases |s| - i
  {
    if i < |s| {
      assert s[i..][1..] == s[i + 1..];
      if !EndsEscape(s[i]) {
        EscapeIsSkipped(s, i + 1);
      }
    } else {
      assert s[i..] == "";
    }
  }

  lemma {:induction false} DispatchedIsPlain(s: string)
    ensures Dispatched(false, s) == Plain(s)
    decreases |s|
  {
    if s != "" {
      if s[0] == ESC {
        EscapeIsSkipped(s, 1);
        DispatchedIsPlain(s[AfterEscape(s, 1)..]);
      } else {
        DispatchedIsPlain(s[1..]);
      }
    }
  }

  predicate LetterOrTilde(c: char) {
    'A' <= c <= 'Z' || 'a' <= c <= 'z' || c == '~'
  }

  lemma {:induction false} EscapeEnds(s: string, i: nat, last: nat)
    requires i <= last < |s| && LetterOrTilde(s[last]) && forall k :: i <= k < last ==> !LetterOrTilde(s[k])
    ensures AfterEscape(s, i) == last + 1
    decreases last - i
  {
    if i < last {
      EscapeEnds(s, i + 1, last);
    }
  }

  /** An escape sequence is taken out whole: the escape character, anything that is neither a letter nor a
      tilde, and the letter or tilde that ends it. */
  lemma EscapeIsTakenOut(body: string, last: char, rest: string)
    requires LetterOrTilde(last) && forall c :: c in body ==> !LetterOrTilde(c)
    ensures Plain("\U{1B}" + body + [last] + rest) == Plain(rest)
  {
    var s := "\U{1B}" + body + [last] + rest;
    var end := |body| + 1;
    forall k | 1 <= k < end ensures !LetterOrTilde(s[k]) {
      assert s[k] == body[k - 1];
    }
    EscapeEnds(s, 1, end);
    assert s[end + 1..] == rest;
  }

  /** An escape sequence that never ends takes the rest with it. */
  lemma {:induction false} UnendedEscapeTakesAll(body: string)
    requires forall c :: c in body ==> !LetterOrTilde(c)
    ensures Plain("\U{1B}" + body) == ""
  {
    var s := "\U{1B}" + body;
    forall k | 1 <= k < |s| ensures !LetterOrTilde(s[k]) {
      assert s[k] == body[k - 1];
    }
    NothingEndsIt(s, 1);
    assert s[|s|..] == "";
  }

  lemma {:induction false} NothingEndsIt(s: string, i: nat)
    requires i <= |s| && forall k :: i <= k < |s| ==> !LetterOrTilde(s[k])
    ensures AfterEscape(s, i) == |s|
    decreases |s| - i
  {
    if i < |s| {
      NothingEndsIt(s, i + 1);
    }
  }

  /** What precedes the first escape character is dispatched as it is. */
  lemma {:induction false} PlainTextIsDispatched(s: string, rest: string)
    requires '\U{1B}' !in s
    ensures Plain(s + rest) == s + Plain(rest) && Plain(s) == s
  {
    if s == "" {
      assert s + rest == rest;
    } else {
      assert s[0] in s && forall c :: c in s[1..] ==> c in s;
      assert (s + rest)[1..] == s[1..] + rest;
      PlainTextIsDispatched(s[1..], rest);
    }
  }

  lemma {:induction false} DispatchJoins(inEscape: bool, a: string, b: string)
    ensures Dispatched(inEscape, a + b) == Dispatched(inEscape, a) + Dispatched(Escaping(inEscape, a), b)
    ensures Escaping(inEscape, a + b) == Escaping(Escaping(inEscape, a), b)
    decreases |a|
  {
    if a == "" {
      assert a + b == b;
    } else {
      assert (a + b)[0] == a[0] && (a + b)[1..] == a[1..] + b;
      DispatchJoins(if inEscape then !EndsEscape(a[0]) else a[0] == ESC, a[1..], b);
    }
  }

  class Keyboard {
    var inEscape: bool
    var handled: string

    constructor ()
      ensures !inEscape && handled == ""
    {
      inEscape, handled := false, "";
    }

    method StdinReadable(block: string)
      modifies this
      ensures handled == old(handled) + Dispatched(old(inEscape), block)
      ensures inEscape == Escaping(old(inEscape), block)
    {
      for i := 0 to |block|
        invariant handled == old(handled) + Dispatched(old(inEscape), block[..i])
        invariant inEscape == Escaping(old(inEscape), block[..i])
      {
        ghost var c := [block[i]];
        assert block[..i + 1] == block[..i] + c && c[1..] == "";
        DispatchJoins(old(inEscape), block[..i], c);
        if inEscape {
          if EndsEscape(block[i]) {
            inEscape := false;
          }
          continue;
        }
        if block[i] == ESC {
          inEscape := true;
          continue;
        }
        handled := handled + [block[i]];
      }
      assert block[..|block|] == block;
    }

    /** However the input is cut into reads, what is handled is the input without its escape sequences. */
    method ReadAll(blocks: seq<string>)
      requires !inEscape && handled == ""
      modifies this
      ensures handled == Plain(Concat(blocks))
    {
      for i := 0 to |blocks|
        invariant handled == Dispatched(false, Concat(blocks[..i])) && inEscape == Escaping(false, Concat(blocks[..i]))
      {
        assert blocks[..i + 1][..i] == blocks[..i];
        DispatchJoins(false, Concat(blocks[..i]), blocks[i]);
        StdinReadable(blocks[i]);
      }
      assert blocks[..|blocks|] == blocks;
      DispatchedIsPlain(Concat(blocks));
    }
  }
}
