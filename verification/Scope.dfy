/** `parse_scope_channel` of `cpp/src/protocol.cpp`: the channel named by a scope header. */
module Scope {
  import opened Wrappers

  const PREFIX: string := "channel="

  /** `isspace` in the C locale: tab, LF, vertical tab, form feed, CR and space. */
  predicate IsSpace(c: char) { c == ' ' || 9 <= c as int <= 13 }

  predicate AllSpace(s: string) { forall i :: 0 <= i < |s| ==> IsSpace(s[i]) }

  predicate IsTrimmed(s: string) { s == "" || (!IsSpace(s[0]) && !IsSpace(s[|s| - 1])) }

  /** The six white-space characters of the C locale. */
  predicate IsBlank(c: char) { c in " \t\n\U{b}\U{c}\r" }

  lemma SpacesAreSix(c: char)
    ensures IsSpace(c) <==> IsBlank(c)
  {
    assert c in " \t\n\U{b}\U{c}\r" <==> c == ' ' || c == '\t' || c == '\n' || c == '\U{b}' || c == '\U{c}' || c == '\r';
  }

  predicate AllBlank(s: string) { forall i :: 0 <= i < |s| ==> IsBlank(s[i]) }

  lemma BlankIsSpace(s: string)
    ensures AllBlank(s) <==> AllSpace(s)
  {
    forall c {
      SpacesAreSix(c);
    }
  }

  function TrimFront(s: string): string {
    if s != "" && IsSpace(s[0]) then TrimFront(s[1..]) else s
  }

  function TrimBack(s: string): string {
    if s != "" && IsSpace(s[|s| - 1]) then TrimBack(s[..|s| - 1]) else s
  }

  function Trim(s: string): string { TrimBack(TrimFront(s)) }

  /** The declared channel, if the scope has the required prefix. */
  function DeclaredChannel(scope: string): Option<string> {
    if PREFIX <= scope then Some(Trim(scope[|PREFIX|..])) else None
  }

  lemma TrimFrontStep(c: string, b: nat)
    requires b < |c|
    ensures TrimFront(c[b..]) == if IsSpace(c[b]) then TrimFront(c[b + 1..]) else c[b..]
  {
    assert c[b..][1..] == c[b + 1..];
  }

  lemma TrimBackStep(c: string, b: nat, e: nat)
    requires b < e <= |c|
    ensures TrimBack(c[b..e]) == if IsSpace(c[e - 1]) then TrimBack(c[b..e - 1]) else c[b..e]
  {
    assert c[b..e][..e - b - 1] == c[b..e - 1];
  }

  method ParseScopeChannel(scope: string) returns (channel: Option<string>)
    ensures channel == DeclaredChannel(scope)
    ensures channel.Some? <==> "channel=" <= scope
  {
    if !(PREFIX <= scope) {
      return None;
    }
    var c := scope[|PREFIX|..];
    var b, e := 0, |c|;
    assert c[0..] == c;
    while b < e && IsSpace(c[b])
      invariant 0 <= b <= e == |c|
      invariant TrimFront(c[b..]) == TrimFront(c)
    {
      TrimFrontStep(c, b);
      b := b + 1;
    }
    if b < e {
      TrimFrontStep(c, b);
    }
    assert TrimFront(c) == c[b..] == c[b..e];
    while e > b && IsSpace(c[e - 1])
      invariant b <= e <= |c|
      invariant TrimBack(c[b..e]) == Trim(c)
    {
      TrimBackStep(c, b, e);
      e := e - 1;
    }
    if b < e {
      TrimBackStep(c, b, e);
    }
    assert TrimBack(c[b..e]) == c[b..e];
    channel := Some(c[b..e]);
  }

  lemma {:induction false} TrimFrontSplits(s: string) returns (front: string)
    ensures AllSpace(front) && s == front + TrimFront(s)
    ensures TrimFront(s) != "" ==> !IsSpace(TrimFront(s)[0])
  {
    if s != "" && IsSpace(s[0]) {
      var rest := TrimFrontSplits(s[1..]);
      front := [s[0]] + rest;
      assert s == [s[0]] + (rest + TrimFront(s[1..]));
    } else {
      front := "";
    }
  }

  lemma {:induction false} TrimBackSplits(s: string) returns (back: string)
    ensures AllSpace(back) && s == TrimBack(s) + back
    ensures TrimBack(s) != "" ==> !IsSpace(TrimBack(s)[|TrimBack(s)| - 1])
  {
    if s != "" && IsSpace(s[|s| - 1]) {
      var rest := TrimBackSplits(s[..|s| - 1]);
      back := rest + [s[|s| - 1]];
      assert s == (TrimBack(s[..|s| - 1]) + rest) + [s[|s| - 1]];
    } else {
      back := "";
    }
  }

  /** Trimming drops spaces at both ends and nothing else. */
  lemma TrimSplits(s: string) returns (front: string, back: string)
    ensures AllSpace(front) && AllSpace(back) && IsTrimmed(Trim(s))
    ensures s == front + Trim(s) + back
  {
    front := TrimFrontSplits(s);
    back := TrimBackSplits(TrimFront(s));
    assert Trim(s) != "" ==> Trim(s)[0] == TrimFront(s)[0];
  }

  lemma {:induction false} SpacesThenTrimmed(front: string, s: string)
    requires AllSpace(front) && (s == "" || !IsSpace(s[0]))
    ensures TrimFront(front + s) == s
  {
    if front == "" {
      assert front + s == s;
    } else {
      SpacesThenTrimmed(front[1..], s);
      assert (front + s)[1..] == front[1..] + s;
    }
  }

  lemma {:induction false} TrimmedThenSpaces(s: string, back: string)
    requires AllSpace(back) && (s == "" || !IsSpace(s[|s| - 1]))
    ensures TrimBack(s + back) == s
  {
    if back == "" {
      assert s + back == s;
    } else {
      TrimmedThenSpaces(s, back[..|back| - 1]);
      assert (s + back)[..|s + back| - 1] == s + back[..|back| - 1];
    }
  }

  lemma {:induction false} AllSpaceTrimsAway(s: string)
    requires AllSpace(s)
    ensures TrimFront(s) == ""
  {
    if s == "" {
    } else {
      AllSpaceTrimsAway(s[1..]);
    }
  }

  /** The declared channel of a scope is the one trimmed text that, between spaces, follows the prefix. */
  lemma DeclaredBetweenSpaces(scope: string, channel: string)
    ensures DeclaredChannel(scope) == Some(channel) <==>
            IsTrimmed(channel)
            && exists front, back :: AllSpace(front) && AllSpace(back) && scope == PREFIX + (front + channel + back)
  {
    if DeclaredChannel(scope) == Some(channel) {
      var front, back := TrimSplits(scope[|PREFIX|..]);
      assert scope == PREFIX + (front + channel + back);
    }
    forall front, back | IsTrimmed(channel) && AllSpace(front) && AllSpace(back)
                         && scope == PREFIX + (front + channel + back)
      ensures DeclaredChannel(scope) == Some(channel)
    {
      assert scope[|PREFIX|..] == front + channel + back;
      if channel == "" {
        assert AllSpace(front + channel + back);
        AllSpaceTrimsAway(front + channel + back);
      } else {
        assert front + channel + back == front + (channel + back);
        SpacesThenTrimmed(front, channel + back);
        TrimmedThenSpaces(channel, back);
      }
    }
  }

  /** A scope declares a channel exactly when it is "channel=", blanks, the channel, and blanks,
      and the channel neither begins nor ends with a blank. */
  lemma DeclaredChannelIsExact(scope: string, channel: string)
    ensures DeclaredChannel(scope) == Some(channel) <==>
            && (channel == "" || (!IsBlank(channel[0]) && !IsBlank(channel[|channel| - 1])))
            && exists front, back :: AllBlank(front) && AllBlank(back) && scope == "channel=" + front + channel + back
  {
    DeclaredBetweenSpaces(scope, channel);
    forall c {
      SpacesAreSix(c);
    }
    forall front, back
      ensures "channel=" + front + channel + back == PREFIX + (front + channel + back)
      ensures AllBlank(front) && AllBlank(back) <==> AllSpace(front) && AllSpace(back)
    {
      BlankIsSpace(front);
      BlankIsSpace(back);
    }
  }
}
