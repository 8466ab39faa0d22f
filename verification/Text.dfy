/** The text operations of the Go standard library used by the poll parser. */
module Text {

  /** The runes that count as white space when trimming. */
  predicate IsSpace(c: char) {
    || '\t' <= c <= '\r' || c == ' ' || c == '\U{0085}' || c == '\U{00A0}' || c == '\U{1680}'
    || '\U{2000}' <= c <= '\U{200A}' || c == '\U{2028}' || c == '\U{2029}' || c == '\U{202F}'
    || c == '\U{205F}' || c == '\U{3000}'
  }

  predicate IsTrimmed(s: string) {
    s == "" || (!IsSpace(s[0]) && !IsSpace(s[|s| - 1]))
  }

  function TrimLeft(s: string): string {
    if s != "" && IsSpace(s[0]) then TrimLeft(s[1..]) else s
  }

  function TrimRight(s: string): string {
    if s != "" && IsSpace(s[|s| - 1]) then TrimRight(s[..|s| - 1]) else s
  }

  function TrimSpace(s: string): string {
    TrimRight(TrimLeft(s))
  }

  ghost predicate AllSpaces(s: string) {
    forall c | c in s :: IsSpace(c)
  }

  lemma {:induction false} TrimLeftDrops(pre: string, s: string)
    requires AllSpaces(pre) && (s == "" || !IsSpace(s[0]))
    ensures TrimLeft(pre + s) == s
  {
    if pre == "" {
      assert pre + s == s;
    } else {
      assert (pre + s)[1..] == pre[1..] + s;
      TrimLeftDrops(pre[1..], s);
    }
  }

  lemma {:induction false} TrimRightDrops(s: string, post: string)
    requires AllSpaces(post) && (s == "" || !IsSpace(s[|s| - 1]))
    ensures TrimRight(s + post) == s
  {
    if post == "" {
      assert s + post == s;
    } else {
      assert (s + post)[..|s + post| - 1] == s + post[..|post| - 1];
      TrimRightDrops(s, post[..|post| - 1]);
    }
  }

  /** Trimming removes exactly the white space around a trimmed text. */
  lemma TrimDrops(pre: string, s: string, post: string)
    requires AllSpaces(pre) && AllSpaces(post) && IsTrimmed(s)
    ensures TrimSpace(pre + s + post) == s
  {
    if s == "" {
      assert pre + s + post == (pre + post) + "";
      TrimLeftDrops(pre + post, "");
    } else {
      assert pre + s + post == pre + (s + post);
      TrimLeftDrops(pre, s + post);
      TrimRightDrops(s, post);
    }
  }

  lemma {:induction false} TrimLeftMembers(s: string)
    ensures TrimLeft(s) != "" ==> !IsSpace(TrimLeft(s)[0])
    ensures forall c | c in TrimLeft(s) :: c in s
  {
    if s != "" && IsSpace(s[0]) {
      TrimLeftMembers(s[1..]);
    }
  }

  lemma {:induction false} TrimRightMembers(s: string)
    requires s != "" ==> !IsSpace(s[0])
    ensures IsTrimmed(TrimRight(s))
    ensures forall c | c in TrimRight(s) :: c in s
  {
    if s != "" && IsSpace(s[|s| - 1]) {
      TrimRightMembers(s[..|s| - 1]);
    }
  }

  lemma TrimResult(s: string)
    ensures IsTrimmed(TrimSpace(s))
    ensures forall c | c in TrimSpace(s) :: c in s
  {
    TrimLeftMembers(s);
    TrimRightMembers(TrimLeft(s));
  }

  // ------------------------------------------------------------------------ lines

  function NewlineAt(s: string): (r: nat)
    ensures r <= |s| && (r < |s| ==> s[r] == '\n') && forall i | 0 <= i < r :: s[i] != '\n'
  {
    if s == "" || s[0] == '\n' then 0
    else
      var r := NewlineAt(s[1..]);
      assert forall i | 1 <= i < r + 1 :: s[i] == s[1..][i - 1];
      r + 1
  }

  function DropCarriageReturn(line: string): string {
    if line != "" && line[|line| - 1] == '\r' then line[..|line| - 1] else line
  }

  /** The lines a line scanner delivers: a last line needs no newline, but an empty one is not delivered. */
  function Lines(s: string): seq<string>
    decreases |s|
  {
    if s == "" then []
    else
      var n := NewlineAt(s);
      [DropCarriageReturn(s[..n])] + if n == |s| then [] else Lines(s[n + 1..])
  }

  lemma LinesTake(line: string, rest: string)
    requires '\n' !in line
    ensures Lines(line + "\n" + rest) == [DropCarriageReturn(line)] + Lines(rest)
  {
    var s := line + "\n" + rest;
    var n := NewlineAt(s);
    forall i | 0 <= i < |line| ensures s[i] != '\n' {
      assert line[i] in line;
    }
    assert n == |line| by { assert s[|line|] == '\n'; }
    assert s[..n] == line && s[n + 1..] == rest;
  }

  lemma {:induction false} LinesHaveNoNewline(s: string)
    ensures forall line | line in Lines(s) :: '\n' !in line
    decreases |s|
  {
    if s != "" {
      var n := NewlineAt(s);
      assert forall c | c in DropCarriageReturn(s[..n]) :: c in s[..n];
      if n < |s| {
        LinesHaveNoNewline(s[n + 1..]);
      }
    }
  }

  function ReplaceNewlines(s: string): (r: string)
    ensures |r| == |s|
  {
    seq(|s|, i requires 0 <= i < |s| => if s[i] == '\n' then ' ' else s[i])
  }
}
