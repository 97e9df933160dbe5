/** String values in configuration files: written with escapes, read back in place
    (nemu/tools/kconfig/symbol.c:875-916 and confdata.c:261-280, 444-455). */
module StringValues {
  import opened Wrappers

  const NUL := '\0'

  /** The characters both directions look for */
  predicate Special(c: char) { c == '"' || c == '\\' }

  function EscapedChar(c: char): string { if Special(c) then ['\\', c] else [c] }

  /** A value with a backslash before every special character */
  function Escaped(s: string): string {
    if s == "" then "" else EscapedChar(s[0]) + Escaped(s[1..])
  }

  /** What stands before the first quote that has no backslash before it, without the backslashes
      that protect the next character; nothing if there is no such quote */
  function Unquote(s: string): Option<string> {
    if s == "" then None
    else if s[0] == '"' then Some("")
    else if s[0] == '\\' then
      if |s| == 1 then None else Prepend([s[1]], Unquote(s[2..]))
    else Prepend([s[0]], Unquote(s[1..]))
  }

  function Prepend(a: string, r: Option<string>): Option<string> {
    if r == None then None else Some(a + r.value)
  }

  /** strcspn(s, "\"\\") */
  method Span(s: string, p: nat) returns (l: nat)
    requires p <= |s|
    ensures p + l <= |s| && (forall i | p <= i < p + l :: !Special(s[i])) && (p + l < |s| ==> Special(s[p + l]))
  {
    l := 0;
    while p + l < |s| && !Special(s[p + l])
      invariant p + l <= |s| && forall i | p <= i < p + l :: !Special(s[i])
    {
      l := l + 1;
    }
  }

  lemma {:induction false} EscapedAppend(a: string, b: string)
    ensures Escaped(a + b) == Escaped(a) + Escaped(b)
  {
    if a == "" {
      assert a + b == b;
    } else {
      EscapedAppend(a[1..], b);
      assert (a + b)[1..] == a[1..] + b;
      Group3(EscapedChar(a[0]), Escaped(a[1..]), Escaped(b));
    }
  }

  lemma {:induction false} EscapedPlain(s: string)
    requires forall i | 0 <= i < |s| :: !Special(s[i])
    ensures Escaped(s) == s
  {
    if s != "" { EscapedPlain(s[1..]); }
  }

  /** Up to the next special character, and that character */
  lemma EscapedStep(s: string, p: nat, l: nat)
    requires p + l <= |s| && forall i | p <= i < p + l :: !Special(s[i])
    ensures Escaped(s[..p + l]) == Escaped(s[..p]) + s[p..p + l]
    ensures p + l < |s| && Special(s[p + l]) ==> Escaped(s[..p + l + 1]) == Escaped(s[..p + l]) + ['\\', s[p + l]]
  {
    assert s[..p + l] == s[..p] + s[p..p + l];
    EscapedAppend(s[..p], s[p..p + l]);
    EscapedPlain(s[p..p + l]);
    if p + l < |s| {
      assert s[..p + l + 1] == s[..p + l] + [s[p + l]];
      EscapedAppend(s[..p + l], [s[p + l]]);
    }
  }

  /** The first pass: one byte more for each special character */
  method Measure(s: string) returns (reslen: nat)
    ensures reslen == |Escaped(s)| + 3
  {
    hide Escaped;
    reslen := |s| + 2 + 1;
    var p := 0;
    Whole(s);
    while true
      invariant p <= |s| && reslen + p == |s| + 3 + |Escaped(s[..p])|
      decreases |s| - p
    {
      var l := Span(s, p);
      EscapedStep(s, p, l);
      p := p + l;
      if p == |s| { break; }
      reslen := reslen + 1;
      p := p + 1;
    }
  }

  lemma Whole(s: string)
    ensures s[..|s|] == s && s[..0] == "" && Escaped("") == ""
  {}

  /** sym_escape_string_value: the text between quotes, and a buffer exactly long enough */
  method Escape(s: string) returns (res: string, reslen: nat)
    ensures res == "\"" + Escaped(s) + "\"" && reslen == |res| + 1
  {
    hide Escaped;
    reslen := Measure(s);
    res := "\"";
    var p := 0;
    Whole(s);
    while true
      invariant p <= |s| && res == "\"" + Escaped(s[..p])
      decreases |s| - p
    {
      var l := Span(s, p);
      EscapedStep(s, p, l);
      res := res + s[p..p + l];
      p := p + l;
      if p == |s| { break; }
      res := res + "\\";
      res := res + [s[p]];
      p := p + 1;
    }
    res := res + "\"";
  }

  // ---- reading back, in place ----

  /** The C string at p of a buffer */
  ghost predicate Holds(buf: array<char>, p: nat, s: string)
    reads buf
  {
    p + |s| < buf.Length && buf[p..p + |s|] == s && buf[p + |s|] == NUL && NUL !in s
  }

  /** strpbrk(p, "\"\\"): the index of the first special character, or of the end */
  method Find(buf: array<char>, p: nat, ghost s: string) returns (q: nat)
    requires Holds(buf, p, s)
    ensures p <= q <= p + |s| && (q < p + |s| <==> buf[q] != NUL) && (q < p + |s| ==> Special(buf[q]))
    ensures forall i | 0 <= i < q - p :: !Special(s[i])
  {
    q := p;
    while buf[q] != NUL && !Special(buf[q])
      invariant p <= q <= p + |s| && forall i | 0 <= i < q - p :: !Special(s[i])
      decreases p + |s| - q
    {
      assert buf[q] == s[q - p];
      q := q + 1;
      if q < p + |s| { assert buf[q] == buf[p..p + |s|][q - p]; }
    }
    if q < p + |s| { assert buf[q] == s[q - p]; }
  }

  lemma {:induction false} UnquotePlain(a: string, b: string)
    requires forall i | 0 <= i < |a| :: !Special(a[i])
    ensures Unquote(a + b) == Prepend(a, Unquote(b))
  {
    if a == "" {
      assert a + b == b;
      if Unquote(b).Some? { assert a + Unquote(b).value == Unquote(b).value; }
    } else {
      UnquotePlain(a[1..], b);
      assert (a + b)[1..] == a[1..] + b;
      if Unquote(b).Some? { assert [a[0]] + (a[1..] + Unquote(b).value) == a + Unquote(b).value; }
    }
  }

  /** memmove(p, p + 1, n) */
  method MoveDown(buf: array<char>, p: nat, n: nat)
    requires p + n < buf.Length
    modifies buf
    ensures buf[..p] == old(buf[..p]) && buf[p..p + n] == old(buf[p + 1..p + n + 1])
    ensures buf[p + n..] == old(buf[p + n..])
  {
    forall i | p <= i < p + n { buf[i] := buf[i + 1]; }
  }

  /** The string behind the character a step of the loop has passed */
  function Behind(t: string): string { if t == "" then "" else t[1..] }

  /** What the loop has passed, up to the next special character, and what is left */
  lemma LoopStep(rest: string, l: nat)
    requires l <= |rest| && forall i | 0 <= i < l :: !Special(rest[i])
    ensures l == |rest| ==> Unquote(rest) == None
    ensures l < |rest| && rest[l] == '"' ==> Unquote(rest) == Some(rest[..l])
    ensures l < |rest| && rest[l] == '\\' ==>
              var t := rest[l + 1..];
              Unquote(rest) == if t == "" then None else Prepend(rest[..l] + [t[0]], Unquote(t[1..]))
    ensures l < |rest| && rest[l] == '\\' && l + 1 < |rest| ==>
              (Unquote(rest).Some? <==> Unquote(rest[l + 1..][1..]).Some?)
  {
    var a, b := rest[..l], rest[l..];
    assert rest == a + b;
    UnquotePlain(a, b);
    if l < |rest| {
      assert b[0] == rest[l];
      if rest[l] == '"' {
        assert a + "" == a;
      } else if rest[l] == '\\' {
        var t := rest[l + 1..];
        assert b == ['\\'] + t;
        if t != "" {
          assert b[1] == t[0] && b[2..] == t[1..];
          PrependTwice(a, [t[0]], Unquote(t[1..]));
        }
      }
    }
  }

  lemma PrependTwice(a: string, b: string, r: Option<string>)
    ensures Prepend(a, Prepend(b, r)) == Prepend(a + b, r)
  {
    if r.Some? { assert a + (b + r.value) == (a + b) + r.value; }
  }

  /** strlen(p) */
  method Length(buf: array<char>, p: nat, ghost s: string) returns (n: nat)
    requires Holds(buf, p, s)
    ensures n == |s|
  {
    n := 0;
    CharAt(buf, p, s, 0);
    while buf[p + n] != NUL
      invariant n <= |s| && (buf[p + n] == NUL <==> n == |s|)
      decreases |s| - n
    {
      n := n + 1;
      CharAt(buf, p, s, n);
    }
  }

  lemma CharAt(buf: array<char>, p: nat, s: string, i: nat)
    requires Holds(buf, p, s) && i <= |s|
    ensures p + i < buf.Length && (buf[p + i] == NUL <==> i == |s|)
    ensures i < |s| ==> buf[p + i] == s[i]
  {
    if i < |s| { assert buf[p + i] == buf[p..p + |s|][i]; }
  }

  lemma HoldsFrom(buf: array<char>, p: nat, s: string, l: nat)
    requires Holds(buf, p, s) && l <= |s|
    ensures Holds(buf, p + l, s[l..]) && buf[p..p + l] == s[..l]
  {
    assert buf[p + l..p + |s|] == buf[p..p + |s|][l..];
    assert buf[p..p + l] == buf[p..p + |s|][..l];
  }

  /** The string from q on, one character shorter at its front: t is what follows the backslash. */
  method DropBackslash(buf: array<char>, q: nat, ghost t: string)
    requires Holds(buf, q, "\\" + t)
    modifies buf
    ensures Holds(buf, q, t) && Holds(buf, q + 1, Behind(t)) && buf[..q] == old(buf[..q])
  {
    var n := Length(buf, q, "\\" + t);
    HoldsFrom(buf, q, "\\" + t, 1);
    assert ("\\" + t)[1..] == t;
    ghost var before := buf[q + 1..q + n + 1];
    assert before == t + [NUL];
    MoveDown(buf, q, n);
    assert buf[q..q + n] == before;
    assert buf[q..q + |t|] == buf[q..q + n][..|t|] == t;
    assert buf[q + |t|] == before[|t|];
    if t != "" {
      HoldsFrom(buf, q, t, 1);
    } else {
      assert buf[q + n] == buf[q + n..][0];
    }
  }

  /** The unescaping loop of conf_set_sym_val, on the text behind the opening quote */
  method Unescape(buf: array<char>, p: nat, ghost s: string) returns (ok: bool)
    requires Holds(buf, p, s)
    modifies buf
    ensures ok <==> Unquote(s).Some?
    ensures ok ==> Holds(buf, p, Unquote(s).value)
    ensures buf[..p] == old(buf[..p])
  {
    hide Unquote, Holds, Behind, Prepend;
    CharAt(buf, p, s, 0);
    var p2 := p;
    ghost var done, rest := "", s;
    assert Unquote(s) == Prepend(done, Unquote(rest)) by { PrependNothing(Unquote(s)); }
    while true
      invariant p <= p2 <= buf.Length && p2 == p + |done| && Holds(buf, p2, rest) && buf[p..p2] == done
      invariant Unquote(s) == Prepend(done, Unquote(rest)) && (Unquote(rest).Some? ==> NUL !in done)
      invariant buf[..p] == old(buf[..p])
      decreases |rest|
    {
      var q := Find(buf, p2, rest);
      ghost var l := q - p2;
      LoopStep(rest, l);
      HoldsFrom(buf, p2, rest, l);
      CharAt(buf, p2, rest, l);
      PartHasNoNul(buf, p2, rest, l);
      assert buf[p..q] == done + rest[..l];
      NonePrepended(done);
      if buf[q] == NUL { return false; }
      if buf[q] == '"' {
        Finished(buf, p2, rest, done, l);
        Terminate(buf, p, q, done + rest[..l]);
        return true;
      }
      ghost var t := rest[l + 1..];
      assert rest[l..] == "\\" + t;
      DropEscape(buf, p, q, t);
      p2 := q + 1;
      BehindIsShorter(t);
      CharAt(buf, q + 1, Behind(t), 0);
      LoopDone(s, done, rest[..l], t, buf[q]);
      assert t != "" ==> Behind(t) == t[1..] by { BehindIs(t); }
      NoNul(buf, q, done, rest[..l], t);
      done, rest := done + rest[..l] + [buf[q]], Behind(t);
    }
  }

  lemma NonePrepended(a: string)
    ensures Prepend(a, None) == None
  {}

  lemma PartHasNoNul(buf: array<char>, p: nat, s: string, l: nat)
    requires Holds(buf, p, s) && l <= |s|
    ensures NUL !in s[..l]
  {}

  lemma NoNul(buf: array<char>, q: nat, done: string, a: string, t: string)
    requires Holds(buf, q, t) && NUL !in a
    ensures t != "" && NUL !in done ==> NUL !in done + a + [buf[q]]
    ensures t == "" ==> Unquote(Behind(t)) == None
  {
    CharAt(buf, q, t, 0);
  }

  lemma BehindIs(t: string)
    ensures t != "" ==> Behind(t) == t[1..]
  {}

  lemma BehindIsShorter(t: string)
    ensures |Behind(t)| <= |t|
  {}

  lemma Finished(buf: array<char>, p: nat, rest: string, done: string, l: nat)
    requires Holds(buf, p, rest) && NUL !in done && l <= |rest|
    ensures Prepend(done, Some(rest[..l])) == Some(done + rest[..l]) && NUL !in done + rest[..l]
  {}

  method Terminate(buf: array<char>, p: nat, q: nat, ghost value: string)
    requires p <= q < buf.Length && buf[p..q] == value && NUL !in value
    modifies buf
    ensures Holds(buf, p, value) && buf[..p] == old(buf[..p])
  {
    buf[q] := NUL;
    assert buf[p..q] == value;
  }

  /** As DropBackslash, with the characters from p on that the loop has passed */
  method DropEscape(buf: array<char>, p: nat, q: nat, ghost t: string)
    requires p <= q && Holds(buf, q, "\\" + t)
    modifies buf
    ensures Holds(buf, q, t) && Holds(buf, q + 1, Behind(t)) && buf[..p] == old(buf[..p])
    ensures buf[p..q + 1] == old(buf[p..q]) + [buf[q]] && (t != "" ==> buf[q] == t[0])
  {
    ghost var passed := buf[..q];
    ghost var middle := buf[p..q];
    assert passed[p..q] == middle && passed[..p] == buf[..p];
    DropBackslash(buf, q, t);
    CharAt(buf, q, t, 0);
    assert buf[..p] == passed[..p];
    assert buf[p..q] == middle;
  }

  lemma PrependNothing(r: Option<string>)
    ensures Prepend("", r) == r
  {
    if r.Some? { assert "" + r.value == r.value; }
  }

  lemma LoopDone(s: string, done: string, a: string, t: string, c: char)
    requires t != "" ==> c == t[0] && Unquote(s) == Prepend(done, Prepend(a + [c], Unquote(t[1..])))
    requires t == "" ==> Unquote(s) == None
    ensures Unquote(s) == Prepend(done + a + [c], Unquote(Behind(t)))
  {
    if t != "" {
      PrependTwice(done, a + [c], Unquote(t[1..]));
      assert done + (a + [c]) == done + a + [c];
    }
  }

  // ---- what is written is read back ----

  /** Text in the escaped form is passed over as a whole. */
  lemma {:induction false} UnquoteEscaped(v: string, more: string)
    ensures Unquote(Escaped(v) + more) == Prepend(v, Unquote(more))
  {
    if v == "" {
      assert Escaped(v) + more == more;
      PrependNothing(Unquote(more));
    } else {
      UnquoteEscaped(v[1..], more);
      var head := EscapedChar(v[0]);
      assert Escaped(v) + more == head + (Escaped(v[1..]) + more);
      assert (head + (Escaped(v[1..]) + more))[|head|..] == Escaped(v[1..]) + more;
      PrependTwice([v[0]], v[1..], Unquote(more));
      assert [v[0]] + v[1..] == v;
    }
  }

  /** Unescaping undoes sym_escape_string_value, whatever follows. */
  lemma UnescapeUndoesEscape(v: string, more: string)
    ensures Unquote(Escaped(v) + "\"" + more) == Some(v)
  {
    UnquoteEscaped(v, "\"" + more);
    assert Escaped(v) + ("\"" + more) == Escaped(v) + "\"" + more;
    assert v + "" == v;
  }

  // ---- a whole line of a configuration file, from the = sign on ----

  /** What is written for a string symbol */
  function ValueText(v: string): string { "\"" + Escaped(v) + "\"" + "\n" }

  /** The text before the first line feed, if there is one */
  function FirstLine(text: string): string {
    if text == "" || text[0] == '\n' then "" else [text[0]] + FirstLine(text[1..])
  }

  /** A carriage return at the end is cut off too. */
  function WithoutReturn(line: string): string {
    if line != "" && line[|line| - 1] == '\r' then line[..|line| - 1] else line
  }

  /** The value a string symbol gets from a line */
  function ReadLine(line0: string): Option<string> {
    var line := WithoutReturn(line0);
    if line == "" || line[0] != '"' then None else Unquote(line[1..])
  }

  function ReadValue(text: string): Option<string> { ReadLine(FirstLine(text)) }

  lemma {:induction false} FirstLineOf(a: string, more: string)
    requires '\n' !in a
    ensures FirstLine(a + "\n" + more) == a
  {
    if a != "" {
      FirstLineOf(a[1..], more);
      assert (a + "\n" + more)[1..] == a[1..] + "\n" + more;
    }
  }

  lemma {:induction false} EscapedFeeds(v: string)
    ensures '\n' in Escaped(v) <==> '\n' in v
  {
    if v != "" {
      EscapedFeeds(v[1..]);
      assert v == [v[0]] + v[1..];
    }
  }

  /** A value cut short has no closing quote. */
  lemma CutShort(u: string)
    ensures ReadLine("\"" + Escaped(u)) == None
  {
    hide Unquote, Escaped;
    OpenText(u);
    LastCharacter(u);
    OpenLine(Escaped(u));
    if u != "" && u[|u| - 1] == '\r' {
      var u' := u[..|u| - 1];
      assert u == u' + "\r";
      EscapedAppend(u', "\r");
      ReturnIsPlain();
      assert Escaped(u)[..|Escaped(u)| - 1] == Escaped(u');
      OpenText(u');
    }
  }

  lemma ReturnIsPlain()
    ensures Escaped("\r") == "\r"
  {}

  lemma OpenLine(body: string)
    ensures ReadLine("\"" + body) == Unquote(WithoutReturn(body))
  {
    var line := "\"" + body;
    if body != "" { assert line[|line| - 1] == body[|body| - 1]; }
    assert WithoutReturn(line) == "\"" + WithoutReturn(body);
    assert ("\"" + WithoutReturn(body))[1..] == WithoutReturn(body);
  }

  lemma OpenText(u: string)
    ensures Unquote(Escaped(u)) == None
  {
    UnquoteEscaped(u, "");
    assert Escaped(u) + "" == Escaped(u);
  }

  lemma {:induction false} LastCharacter(u: string)
    ensures u == "" ==> Escaped(u) == ""
    ensures u != "" ==> Escaped(u) != "" && Escaped(u)[|Escaped(u)| - 1] == u[|u| - 1]
  {
    if |u| > 1 { LastCharacter(u[1..]); }
  }

  /** A whole value is read from its line. */
  lemma WholeLine(v: string)
    ensures ReadLine("\"" + Escaped(v) + "\"") == Some(v)
  {
    var body := Escaped(v) + "\"";
    assert "\"" + Escaped(v) + "\"" == "\"" + body;
    OpenLine(body);
    UnescapeUndoesEscape(v, "");
    assert body + "" == body;
  }

  lemma ReadsFirstLine(line: string, more: string)
    requires '\n' !in line
    ensures ReadValue(line + "\n" + more) == ReadLine(line)
  {
    FirstLineOf(line, more);
  }

  /** A string value survives a configuration file exactly when it has no line feed. */
  lemma LineRoundTrip(v: string)
    ensures ReadValue(ValueText(v)) == Some(v) <==> '\n' !in v
  {
    hide ReadValue, ReadLine, Escaped;
    if '\n' !in v {
      EscapedFeeds(v);
      WholeLine(v);
      ReadsFirstLine("\"" + Escaped(v) + "\"", "");
      assert "\"" + Escaped(v) + "\"" + "\n" + "" == ValueText(v);
    } else {
      var i := FirstFeed(v);
      FeedSplits(v, v[..i], v[i + 1..]);
      EscapedFeeds(v[..i]);
      CutShort(v[..i]);
      ReadsFirstLine("\"" + Escaped(v[..i]), Escaped(v[i + 1..]) + "\"" + "\n");
    }
  }

  lemma FeedSplits(v: string, u: string, w: string)
    requires v == u + ['\n'] + w
    ensures ValueText(v) == "\"" + Escaped(u) + "\n" + (Escaped(w) + "\"" + "\n")
  {
    hide Escaped;
    Group3(u, "\n", w);
    EscapedAppend(u, "\n" + w);
    FeedIsPlain(w);
    Group5(Escaped(u), Escaped(w));
  }

  lemma Group3(a: string, b: string, c: string)
    ensures a + b + c == a + (b + c)
  {}

  lemma FeedIsPlain(w: string)
    ensures Escaped("\n" + w) == "\n" + Escaped(w)
  {
    assert ("\n" + w)[1..] == w;
  }

  lemma Group5(a: string, b: string)
    ensures "\"" + (a + ("\n" + b)) + "\"" + "\n" == "\"" + a + "\n" + (b + "\"" + "\n")
  {}

  function FirstFeed(v: string): (i: nat)
    requires '\n' in v
    ensures i < |v| && v[i] == '\n' && '\n' !in v[..i]
  {
    if v[0] == '\n' then 0 else 1 + FirstFeed(v[1..])
  }
}
