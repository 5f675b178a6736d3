/** The LF-joined texts that are signed or authenticated: the request and response strings of
    `cpp/include/sesame/canonical.hpp` and the associated data of `cpp/src/tier3.cpp`. */
module Canonical {
  import opened Wrappers

  predicate LfFree(s: string) { '\n' !in s }

  predicate AllLfFree(lines: seq<string>) { forall i :: 0 <= i < |lines| ==> LfFree(lines[i]) }

  /** The lines, with a LF between each and the next, then the optional scope after one more LF. */
  function Joined(lines: seq<string>, scope: Option<string>): string {
    if lines == [] then (match scope case None => "" case Some(text) => text)
    else lines[0] + (if |lines| == 1 && scope.None? then "" else "\n" + Joined(lines[1..], scope))
  }

  datatype RequestForm = RequestForm(httpMethod: string, target: string, timestamp: string,
                                     nonce: string, bodyHash: string, scope: Option<string>)
  {
    function Lines(): seq<string> { [httpMethod, target, timestamp, nonce, bodyHash] }

    function Text(): string { Joined(Lines(), scope) }
  }

  datatype ResponseForm = ResponseForm(correlation: string, timestamp: string, nonce: string,
                                       bodyHash: string, scope: Option<string>)
  {
    function Lines(): seq<string> { ["RESPONSE", correlation, timestamp, nonce, bodyHash] }

    function Text(): string { Joined(Lines(), scope) }
  }

  datatype AadForm = AadForm(version: string, keyId: string, timestamp: string, nonce: string,
                             scope: Option<string>)
  {
    function Lines(): seq<string> { [version, keyId, timestamp, nonce] }

    function Text(): string { Joined(Lines(), scope) }
  }

  function Tail(scope: Option<string>): string {
    match scope case None => "" case Some(text) => "\n" + text
  }

  /** The text before an optional scope. */
  function WithScope(front: string, scope: Option<string>): string {
    if scope.None? then front else front + "\n" + scope.value
  }

  lemma OneLine(a: string, scope: Option<string>)
    ensures Joined([a], scope) == WithScope(a, scope)
  {
  }

  lemma MoreLines(a: string, lines: seq<string>, front: string, scope: Option<string>)
    requires lines != [] && Joined(lines, scope) == WithScope(front, scope)
    ensures Joined([a] + lines, scope) == WithScope(a + "\n" + front, scope)
  {
  }

  lemma FourRegroup(a: string, b: string, c: string, d: string)
    ensures a + "\n" + (b + "\n" + (c + "\n" + d)) == a + "\n" + b + "\n" + c + "\n" + d
  {
  }

  lemma FourLines(a: string, b: string, c: string, d: string, scope: Option<string>)
    ensures Joined([a, b, c, d], scope) == WithScope(a + "\n" + b + "\n" + c + "\n" + d, scope)
  {
    OneLine(d, scope);
    MoreLines(c, [d], d, scope);
    MoreLines(b, [c, d], c + "\n" + d, scope);
    MoreLines(a, [b, c, d], b + "\n" + (c + "\n" + d), scope);
    assert [c] + [d] == [c, d] && [b] + [c, d] == [b, c, d] && [a] + [b, c, d] == [a, b, c, d];
    FourRegroup(a, b, c, d);
  }

  lemma FiveLines(a: string, b: string, c: string, d: string, e: string, scope: Option<string>)
    ensures Joined([a, b, c, d, e], scope) == WithScope(a + "\n" + b + "\n" + c + "\n" + d + "\n" + e, scope)
  {
    FourLines(b, c, d, e, scope);
    MoreLines(a, [b, c, d, e], b + "\n" + c + "\n" + d + "\n" + e, scope);
    assert [a] + [b, c, d, e] == [a, b, c, d, e];
    assert a + "\n" + (b + "\n" + c + "\n" + d + "\n" + e) == a + "\n" + b + "\n" + c + "\n" + d + "\n" + e;
  }

  method RequestCanonical(httpMethod: string, path: string, timestamp: string, nonce: string,
                          bodyHash: string, scope: Option<string>) returns (s: string)
    ensures s == RequestForm(httpMethod, path, timestamp, nonce, bodyHash, scope).Text()
    ensures s == httpMethod + "\n" + path + "\n" + timestamp + "\n" + nonce + "\n" + bodyHash
              + (if scope.Some? then "\n" + scope.value else "")
  {
    s := httpMethod + "\n";
    s := s + path + "\n";
    s := s + timestamp + "\n";
    s := s + nonce + "\n";
    s := s + bodyHash;
    FiveLines(httpMethod, path, timestamp, nonce, bodyHash, scope);
    if scope.Some? {
      s := s + "\n" + scope.value;
    }
  }

  method ResponseCanonical(correlation: string, timestamp: string, nonce: string,
                           bodyHash: string, scope: Option<string>) returns (s: string)
    ensures s == ResponseForm(correlation, timestamp, nonce, bodyHash, scope).Text()
    ensures s == "RESPONSE" + "\n" + correlation + "\n" + timestamp + "\n" + nonce + "\n" + bodyHash
              + (if scope.Some? then "\n" + scope.value else "")
  {
    s := "RESPONSE" + "\n";
    s := s + correlation + "\n";
    s := s + timestamp + "\n";
    s := s + nonce + "\n";
    s := s + bodyHash;
    FiveLines("RESPONSE", correlation, timestamp, nonce, bodyHash, scope);
    if scope.Some? {
      s := s + "\n" + scope.value;
    }
  }

  method AadForHeaders(version: string, keyId: string, timestamp: string, nonce: string,
                       scope: Option<string>) returns (s: string)
    ensures s == AadForm(version, keyId, timestamp, nonce, scope).Text()
    ensures s == version + "\n" + keyId + "\n" + timestamp + "\n" + nonce
              + (if scope.Some? then "\n" + scope.value else "")
  {
    s := version + "\n";
    s := s + keyId + "\n";
    s := s + timestamp + "\n";
    s := s + nonce;
    FourLines(version, keyId, timestamp, nonce, scope);
    if scope.Some? {
      s := s + "\n" + scope.value;
    }
  }

  // ---- Reading a joined text back --------------------------------------------------------

  datatype Parts = Parts(lines: seq<string>, scope: Option<string>)

  /** The first line, and what follows its LF if it has one. */
  function FirstLine(s: string): (string, Option<string>) {
    if s == "" then ("", None)
    else if s[0] == '\n' then ("", Some(s[1..]))
    else var (line, rest) := FirstLine(s[1..]); ([s[0]] + line, rest)
  }

  /** The first `k` lines, and the rest of the text as the scope. */
  function Split(k: nat, s: string): Option<Parts> {
    if k == 0 then Some(Parts([], Some(s)))
    else
      var (line, rest) := FirstLine(s);
      if rest.None? then (if k == 1 then Some(Parts([line], None)) else None)
      else
        match Split(k - 1, rest.value)
        case None => None
        case Some(parts) => Some(Parts([line] + parts.lines, parts.scope))
  }

  lemma {:induction false} FirstLineOf(line: string, rest: string)
    requires LfFree(line)
    ensures FirstLine(line) == (line, None)
    ensures FirstLine(line + "\n" + rest) == (line, Some(rest))
  {
    if line == "" {
      assert line + "\n" + rest == "\n" + rest;
    } else {
      FirstLineOf(line[1..], rest);
      assert (line + "\n" + rest)[1..] == line[1..] + "\n" + rest;
      assert [line[0]] + line[1..] == line;
    }
  }

  lemma {:induction false} FirstLineRejoins(s: string)
    ensures var (line, rest) := FirstLine(s); LfFree(line) && s == line + Tail(rest)
  {
    if s == "" || s[0] == '\n' {
    } else {
      FirstLineRejoins(s[1..]);
      assert s == [s[0]] + s[1..];
    }
  }

  /** Splitting undoes joining, for LF-free lines and any scope. */
  lemma {:induction false} SplitOfJoined(lines: seq<string>, scope: Option<string>)
    requires AllLfFree(lines) && (lines == [] ==> scope.Some?)
    ensures Split(|lines|, Joined(lines, scope)) == Some(Parts(lines, scope))
  {
    if lines == [] {
    } else {
      if |lines| == 1 && scope.None? {
        FirstLineOf(lines[0], "");
        assert lines[0] + "" == lines[0] && lines == [lines[0]];
      } else {
        var rest := Joined(lines[1..], scope);
        FirstLineOf(lines[0], rest);
        assert lines[0] + ("\n" + rest) == lines[0] + "\n" + rest;
        SplitOfJoined(lines[1..], scope);
        assert [lines[0]] + lines[1..] == lines;
      }
    }
  }

  /** Joining undoes splitting, for any text that has enough lines. */
  lemma {:induction false} JoinedOfSplit(k: nat, s: string)
    requires Split(k, s).Some?
    ensures var parts := Split(k, s).value;
            |parts.lines| == k && AllLfFree(parts.lines) && Joined(parts.lines, parts.scope) == s
    ensures k == 0 ==> Split(k, s).value.scope.Some?
    decreases k
  {
    if k == 0 {
    } else {
      FirstLineRejoins(s);
      var (line, rest) := FirstLine(s);
      if rest.Some? {
        JoinedOfSplit(k - 1, rest.value);
        var parts := Split(k - 1, rest.value).value;
        assert ([line] + parts.lines)[1..] == parts.lines;
      }
    }
  }

  /** A LF after `a` ends the first line there or earlier. */
  lemma {:induction false} LfBreaksFirstLine(a: string, b: string) returns (more: string)
    ensures FirstLine(a + "\n" + b).1 == Some(more + b)
  {
    var s := a + "\n" + b;
    if a == "" {
      more := "";
      assert s[1..] == "" + b;
    } else if a[0] == '\n' {
      more := a[1..] + "\n";
      assert s[1..] == (a[1..] + "\n") + b;
    } else {
      more := LfBreaksFirstLine(a[1..], b);
      assert s[1..] == a[1..] + "\n" + b;
    }
  }

  /** Any joined text can be split, whatever its lines contain. */
  lemma {:induction false} JoinedCanBeSplit(lines: seq<string>, scope: Option<string>, extra: string)
    requires lines != []
    ensures Split(|lines|, extra + Joined(lines, scope)).Some?
    decreases |lines|
  {
    if |lines| == 1 {
    } else {
      var rest := Joined(lines[1..], scope);
      var more := LfBreaksFirstLine(extra + lines[0], rest);
      assert extra + Joined(lines, scope) == (extra + lines[0]) + "\n" + rest;
      JoinedCanBeSplit(lines[1..], scope, more);
    }
  }

  // ---- Injectivity -----------------------------------------------------------------------

  lemma JoinedIsInjective(a: seq<string>, s: Option<string>, b: seq<string>, t: Option<string>)
    requires |a| == |b| > 0 && AllLfFree(a) && AllLfFree(b)
    requires Joined(a, s) == Joined(b, t)
    ensures a == b && s == t
  {
    SplitOfJoined(a, s);
    SplitOfJoined(b, t);
  }

  /** Two requests with the same canonical string are the same request, whatever their scopes. */
  lemma RequestTextIsInjective(a: RequestForm, b: RequestForm)
    requires AllLfFree(a.Lines()) && AllLfFree(b.Lines())
    ensures a.Text() == b.Text() <==> a == b
  {
    if a.Text() == b.Text() {
      JoinedIsInjective(a.Lines(), a.scope, b.Lines(), b.scope);
      assert forall i :: 0 <= i < 5 ==> a.Lines()[i] == b.Lines()[i];
      assert a.Lines()[0] == b.Lines()[0] && a.Lines()[1] == b.Lines()[1] && a.Lines()[2] == b.Lines()[2]
          && a.Lines()[3] == b.Lines()[3] && a.Lines()[4] == b.Lines()[4];
    }
  }

  lemma ResponseTextIsInjective(a: ResponseForm, b: ResponseForm)
    requires AllLfFree(a.Lines()) && AllLfFree(b.Lines())
    ensures a.Text() == b.Text() <==> a == b
  {
    if a.Text() == b.Text() {
      JoinedIsInjective(a.Lines(), a.scope, b.Lines(), b.scope);
      assert a.Lines()[1] == b.Lines()[1] && a.Lines()[2] == b.Lines()[2]
          && a.Lines()[3] == b.Lines()[3] && a.Lines()[4] == b.Lines()[4];
    }
  }

  lemma AadTextIsInjective(a: AadForm, b: AadForm)
    requires AllLfFree(a.Lines()) && AllLfFree(b.Lines())
    ensures a.Text() == b.Text() <==> a == b
  {
    if a.Text() == b.Text() {
      JoinedIsInjective(a.Lines(), a.scope, b.Lines(), b.scope);
      assert a.Lines()[0] == b.Lines()[0] && a.Lines()[1] == b.Lines()[1]
          && a.Lines()[2] == b.Lines()[2] && a.Lines()[3] == b.Lines()[3];
    }
  }

  /** LF-free lines are exactly what makes a request string unambiguous: if a line holds a LF,
      some other request, with LF-free lines, has the same string. */
  lemma RequestTextIsUniqueIffLfFree(a: RequestForm)
    ensures AllLfFree(a.Lines())
            <==> forall b: RequestForm :: AllLfFree(b.Lines()) && b.Text() == a.Text() ==> b == a
  {
    if AllLfFree(a.Lines()) {
      forall b: RequestForm | AllLfFree(b.Lines()) && b.Text() == a.Text()
        ensures b == a
      {
        RequestTextIsInjective(a, b);
      }
    } else {
      assert "" + a.Text() == a.Text();
      JoinedCanBeSplit(a.Lines(), a.scope, "");
      JoinedOfSplit(5, a.Text());
      var parts := Split(5, a.Text()).value;
      var b := RequestForm(parts.lines[0], parts.lines[1], parts.lines[2], parts.lines[3], parts.lines[4], parts.scope);
      assert b.Lines() == parts.lines;
      assert AllLfFree(b.Lines()) && b.Text() == a.Text() && b != a;
    }
  }

  // ---- The method and the target -------------------------------------------------------------

  /** Two lines that differ, with one text between them, differ in where a LF stands. */
  lemma TwoLinesDiffer(a: string, b: string, c: string, d: string)
    requires a + "\n" + b == c + "\n" + d && |a| < |c|
    ensures a != c && !LfFree(c) && !LfFree(b)
  {
    var s := a + "\n" + b;
    assert s[|a|] == c[|a|] == '\n';
    assert s[|c|] == b[|c| - |a| - 1] == '\n';
  }

  /** A LF in either line can also be read as the one between them. */
  lemma LfMoves(a: string, b: string) returns (c: string, d: string)
    requires !LfFree(a) || !LfFree(b)
    ensures c + "\n" + d == a + "\n" + b && c != a
  {
    if !LfFree(a) {
      var k :| 0 <= k < |a| && a[k] == '\n';
      c, d := a[..k], a[k + 1..] + "\n" + b;
      assert a == a[..k] + "\n" + a[k + 1..];
    } else {
      var k :| 0 <= k < |b| && b[k] == '\n';
      c, d := a + "\n" + b[..k], b[k + 1..];
      assert b == b[..k] + "\n" + b[k + 1..];
    }
  }

  lemma FirstLineStands(a: string, lines: seq<string>, scope: Option<string>)
    requires lines != []
    ensures Joined([a] + lines, scope) == a + "\n" + Joined(lines, scope)
  {
    assert ([a] + lines)[1..] == lines;
  }

  lemma TextAfterTarget(a: RequestForm)
    ensures a.Text() == (a.httpMethod + "\n" + a.target) + ("\n" + Joined([a.timestamp, a.nonce, a.bodyHash], a.scope))
  {
    var rest := Joined([a.timestamp, a.nonce, a.bodyHash], a.scope);
    FirstLineStands(a.httpMethod, [a.target, a.timestamp, a.nonce, a.bodyHash], a.scope);
    FirstLineStands(a.target, [a.timestamp, a.nonce, a.bodyHash], a.scope);
    assert [a.httpMethod] + [a.target, a.timestamp, a.nonce, a.bodyHash] == a.Lines();
    assert [a.target] + [a.timestamp, a.nonce, a.bodyHash] == [a.target, a.timestamp, a.nonce, a.bodyHash];
    assert a.httpMethod + "\n" + (a.target + "\n" + rest) == (a.httpMethod + "\n" + a.target) + ("\n" + rest);
  }

  lemma SuffixCancels(a: string, b: string, end: string)
    ensures a + end == b + end <==> a == b
  {
    if a + end == b + end {
      assert |a| == |b|;
      assert a == (a + end)[..|a|] && b == (b + end)[..|b|];
    }
  }

  lemma SameUpToTarget(a: RequestForm, b: RequestForm)
    requires b == a.(httpMethod := b.httpMethod, target := b.target)
    ensures a.Text() == b.Text() <==> a.httpMethod + "\n" + a.target == b.httpMethod + "\n" + b.target
  {
    TextAfterTarget(a);
    TextAfterTarget(b);
    SuffixCancels(a.httpMethod + "\n" + a.target, b.httpMethod + "\n" + b.target,
                  "\n" + Joined([a.timestamp, a.nonce, a.bodyHash], a.scope));
  }

  lemma SameLengthLines(a: string, b: string, c: string, d: string)
    requires a + "\n" + b == c + "\n" + d && |a| == |c|
    ensures a == c && b == d
  {
    var s := a + "\n" + b;
    assert a == s[..|a|] && c == s[..|c|] && b == s[|a| + 1..] && d == s[|c| + 1..];
  }

  /** Whatever the other lines hold, the text fixes the method and the target exactly when these
      two are free of LF. */
  lemma TextFixesTargetIffLfFree(a: RequestForm)
    ensures LfFree(a.httpMethod) && LfFree(a.target)
            <==> forall m, t :: a.(httpMethod := m, target := t).Text() == a.Text() ==> m == a.httpMethod && t == a.target
  {
    if LfFree(a.httpMethod) && LfFree(a.target) {
      forall m, t | a.(httpMethod := m, target := t).Text() == a.Text()
        ensures m == a.httpMethod && t == a.target
      {
        SameUpToTarget(a, a.(httpMethod := m, target := t));
        if |a.httpMethod| < |m| {
          TwoLinesDiffer(a.httpMethod, a.target, m, t);
        } else if |m| < |a.httpMethod| {
          TwoLinesDiffer(m, t, a.httpMethod, a.target);
        } else {
          SameLengthLines(a.httpMethod, a.target, m, t);
        }
      }
    } else {
      var m, t := LfMoves(a.httpMethod, a.target);
      SameUpToTarget(a, a.(httpMethod := m, target := t));
    }
  }

  lemma FirstOfJoined(lines: seq<string>, scope: Option<string>)
    requires |lines| > 1 && LfFree(lines[0])
    ensures FirstLine(Joined(lines, scope)).0 == lines[0]
  {
    var rest := Joined(lines[1..], scope);
    FirstLineOf(lines[0], rest);
    assert lines[0] + ("\n" + rest) == lines[0] + "\n" + rest;
  }

  /** No request, other than one whose method is RESPONSE, shares its string with a response. */
  lemma RequestIsNoResponse(a: RequestForm, b: ResponseForm)
    requires LfFree(a.httpMethod) && a.httpMethod != "RESPONSE"
    ensures a.Text() != b.Text()
  {
    FirstOfJoined(a.Lines(), a.scope);
    FirstOfJoined(b.Lines(), b.scope);
  }
}
