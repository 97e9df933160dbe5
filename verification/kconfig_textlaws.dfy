/** What escaped values look like and where a quoted one ends (nemu/tools/kconfig/symbol.c:875-916 and
    confdata.c:261-276). */
module EscapeLaws {
  import opened Wrappers
  import opened StringValues

  /** How many of the characters are quotes or backslashes */
  function Specials(s: string): nat {
    if s == "" then 0 else (if s[0] == '"' || s[0] == '\\' then 1 else 0) + Specials(s[1..])
  }

  /** Only quotes and backslashes get a backslash. */
  lemma {:induction false} EscapedLength(s: string)
    ensures |Escaped(s)| == |s| + Specials(s)
  {
    if s != "" { EscapedLength(s[1..]); }
  }

  /** The number of backslashes right before position i */
  function Run(s: string, i: nat): (n: nat)
    requires i <= |s|
    ensures n <= i
  {
    if i > 0 && s[i - 1] == '\\' then 1 + Run(s, i - 1) else 0
  }

  /** A quote with an even number of backslashes before it */
  predicate Closes(s: string, i: nat) { i < |s| && s[i] == '"' && Run(s, i) % 2 == 0 }

  lemma {:induction false} RunShift(s: string, k: nat, i: nat)
    requires k + i <= |s|
    ensures Run(s, k + i) == if Run(s[k..], i) == i then i + Run(s, k) else Run(s[k..], i)
  {
    if i > 0 {
      assert s[k..][i - 1] == s[k + i - 1];
      RunShift(s, k, i - 1);
    }
  }

  /** A quoted value is complete exactly if one of its quotes is not protected. */
  lemma {:induction false} QuoteCloses(s: string)
    ensures Unquote(s).Some? <==> exists i :: Closes(s, i)
    decreases |s|
  {
    if s == "" {
    } else if s[0] == '"' {
      assert Closes(s, 0);
    } else {
      var k := if s[0] == '\\' then 2 else 1;
      if k <= |s| {
        SameQuotes(s, k);
        QuoteCloses(s[k..]);
      }
    }
  }

  /** Leaving out a character, or a backslash and what it protects, changes no other quote. */
  lemma SameQuotes(s: string, k: nat)
    requires k <= |s| && s != "" && s[0] != '"' && k == if s[0] == '\\' then 2 else 1
    ensures (exists i :: Closes(s, i)) <==> exists i :: Closes(s[k..], i)
  {
    forall i: nat | k + i < |s| ensures Closes(s, k + i) <==> Closes(s[k..], i) {
      RunShift(s, k, i);
      assert Run(s, k) % 2 == 0;
    }
    if i: nat :| Closes(s, i) {
      assert i >= k;
      assert Closes(s[k..], i - k);
    }
    if i: nat :| Closes(s[k..], i) {
      assert Closes(s, k + i);
    }
  }
}
