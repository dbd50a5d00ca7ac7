/** The few C library routines the server relies on, as functions on
    character sequences: C strings (a buffer read up to its first NUL),
    isspace, tolower, strncasecmp, strchr, strstr, strncpy/snprintf into a
    fixed-capacity buffer, and strtok_r. A pointer that may be NULL is an
    Option. */
module CLib {

  datatype Option<+T> = None | Some(value: T)

  /** The two return codes of error.h, SUCCESS and FAILURE. */
  datatype ReturnCode = Success | Failure

  const NUL: char := '\0'

  /** The delimiter sets the request parser hands to strtok_r. */
  const LineBreaks: seq<char> := ['\r', '\n']
  const Space: seq<char> := [' ']

  /** isspace in the "C" locale: ' ', '\t', '\n', '\v', '\f' and '\r'. */
  predicate IsSpace(c: char) {
    c == ' ' || ('\t' <= c <= '\r')
  }

  predicate AllSpace(s: seq<char>) {
    forall i :: 0 <= i < |s| ==> IsSpace(s[i])
  }

  /** tolower in the "C" locale. */
  function Lower(c: char): char {
    if 'A' <= c <= 'Z' then (c as int + 32) as char else c
  }

  /** The C string a buffer holds: its characters up to the first NUL, or
      the whole buffer when it holds none. */
  function CStr(buf: seq<char>): (s: seq<char>)
    ensures s <= buf && NUL !in s
    ensures |s| < |buf| ==> buf[|s|] == NUL
    ensures NUL in buf ==> |s| < |buf|
  {
    if buf == [] || buf[0] == NUL then [] else [buf[0]] + CStr(buf[1..])
  }

  /** A buffer whose first NUL is at k holds the C string buf[..k]. */
  lemma {:induction false} CStrAt(buf: seq<char>, k: nat)
    requires k < |buf| && buf[k] == NUL && NUL !in buf[..k]
    ensures CStr(buf) == buf[..k]
  {
    if k > 0 {
      assert buf[1..][..k - 1] == buf[1..k];
      assert NUL !in buf[1..][..k - 1] by { assert buf[1..k] <= buf[..k][1..]; }
      assert buf[0] in buf[..k];
      CStrAt(buf[1..], k - 1);
      assert buf[..k] == [buf[0]] + buf[1..k];
    }
  }

  /** Dropping the first k characters of a C string's buffer drops them
      from the string (strlen from an inner pointer). */
  lemma {:induction false} CStrDrop(buf: seq<char>, k: nat)
    requires k <= |CStr(buf)|
    ensures CStr(buf[k..]) == CStr(buf)[k..]
  {
    if k > 0 {
      assert buf[1..][k - 1..] == buf[k..];
      CStrDrop(buf[1..], k - 1);
    }
  }

  /** A NUL-free prefix passes through to the C string. */
  lemma {:induction false} CStrConcat(a: seq<char>, b: seq<char>)
    requires NUL !in a
    ensures CStr(a + b) == a + CStr(b)
  {
    if a != [] {
      assert (a + b)[1..] == a[1..] + b;
      assert NUL !in a[1..] by { assert forall c :: c in a[1..] ==> c in a; }
      CStrConcat(a[1..], b);
      assert a == [a[0]] + a[1..];
    } else {
      assert a + b == b;
    }
  }

  /** A buffer without NUL is its own C string. */
  lemma CStrWhole(s: seq<char>)
    requires NUL !in s
    ensures CStr(s) == s
  {
    CStrConcat(s, []);
    assert s + [] == s;
  }

  /** The string left in a buffer of `cap` bytes after strncpy of at most
      cap - 1 characters and a terminating NUL (equally, snprintf with size
      cap and "%s"). */
  function Truncate(s: seq<char>, cap: nat): (t: seq<char>)
    requires cap > 0
    ensures t <= s
    ensures |t| < cap
    ensures |s| < cap ==> t == s
    ensures |s| >= cap ==> |t| == cap - 1
  {
    if |s| < cap then s else s[..cap - 1]
  }

  /** strncasecmp(line, name, strlen(name)) == 0, for NUL-free strings. */
  predicate StartsWithIgnoreCase(line: seq<char>, name: seq<char>) {
    |name| <= |line| && forall i :: 0 <= i < |name| ==> Lower(line[i]) == Lower(name[i])
  }

  /** Index of the first occurrence of c in s (strchr). */
  function IndexOf(s: seq<char>, c: char): (k: nat)
    requires c in s
    ensures k < |s| && s[k] == c && c !in s[..k]
  {
    if s[0] == c then 0 else 1 + IndexOf(s[1..], c)
  }

  /** The first occurrence is the one with no earlier occurrence. */
  lemma {:induction false} IndexOfAt(s: seq<char>, c: char, k: nat)
    requires k < |s| && s[k] == c && c !in s[..k]
    ensures IndexOf(s, c) == k
  {
    if k > 0 {
      assert s[0] == s[..k][0];
      assert s[1..][..k - 1] == s[..k][1..];
      IndexOfAt(s[1..], c, k - 1);
    }
  }

  predicate OccursAt(s: seq<char>, pat: seq<char>, i: nat) {
    i + |pat| <= |s| && s[i..i + |pat|] == pat
  }

  /** strstr(s, pat) != NULL. */
  predicate Contains(s: seq<char>, pat: seq<char>)
    decreases |s|
  {
    if |s| < |pat| then false else s[..|pat|] == pat || Contains(s[1..], pat)
  }

  lemma {:induction false} ContainsIff(s: seq<char>, pat: seq<char>)
    ensures Contains(s, pat) <==> exists i :: OccursAt(s, pat, i)
    decreases |s|
  {
    if |s| < |pat| {
      forall i: nat ensures !OccursAt(s, pat, i) { }
    } else if s[..|pat|] == pat {
      assert OccursAt(s, pat, 0);
    } else {
      ContainsIff(s[1..], pat);
      if Contains(s[1..], pat) {
        var i: nat :| OccursAt(s[1..], pat, i);
        assert s[1..][i..i + |pat|] == s[i + 1..i + 1 + |pat|];
        assert OccursAt(s, pat, i + 1);
      } else {
        forall i: nat | OccursAt(s, pat, i) ensures false {
          if i != 0 {
            assert s[1..][i - 1..i - 1 + |pat|] == s[i..i + |pat|];
            assert OccursAt(s[1..], pat, i - 1);
          }
        }
      }
    }
  }

  // ---------------------------------------------------------------------
  // strtok_r

  /** No character of t is in the delimiter set d. */
  predicate Undelimited(t: seq<char>, d: seq<char>) {
    forall i :: 0 <= i < |t| ==> t[i] !in d
  }

  /** Length of the token at the start of s: up to the first delimiter. */
  function TokenLen(s: seq<char>, d: seq<char>): (k: nat)
    ensures k <= |s| && Undelimited(s[..k], d)
    ensures k < |s| ==> s[k] in d
  {
    if s == [] || s[0] in d then 0 else 1 + TokenLen(s[1..], d)
  }

  /** The tokens successive strtok_r calls return on s: maximal runs of
      non-delimiters; runs of delimiters, leading and trailing ones
      included, only separate them. */
  function Tokens(s: seq<char>, d: seq<char>): (ts: seq<seq<char>>)
    ensures forall i :: 0 <= i < |ts| ==> ts[i] != [] && Undelimited(ts[i], d)
    decreases |s|
  {
    if s == [] then []
    else if s[0] in d then Tokens(s[1..], d)
    else
      var k := TokenLen(s, d);
      [s[..k]] + Tokens(s[k..], d)
  }

  /** Every token is made of characters of the input. */
  lemma {:induction false} TokensChars(s: seq<char>, d: seq<char>)
    ensures forall t :: t in Tokens(s, d) ==> forall c :: c in t ==> c in s
    decreases |s|
  {
    if s != [] {
      TokensChars(s[1..], d);
      if s[0] !in d {
        var k := TokenLen(s, d);
        TokensChars(s[k..], d);
        assert forall c :: c in s[k..] ==> c in s;
        assert forall c :: c in s[..k] ==> c in s;
      }
    }
  }

  /** A token followed by one delimiter is split off the front. */
  lemma TokensCons(w: seq<char>, c: char, rest: seq<char>, d: seq<char>)
    requires w != [] && Undelimited(w, d) && c in d
    ensures Tokens(w + [c] + rest, d) == [w] + Tokens(rest, d)
  {
    var s := w + [c] + rest;
    assert s == w + ([c] + rest);
    TokenLenOf(w, [c] + rest, d);
    assert s[0] == w[0] && s[0] !in d;
    assert s[..|w|] == w;
    assert s[|w|..] == [c] + rest;
    assert ([c] + rest)[1..] == rest;
  }

  /** A token at the very end of the input is the last token. */
  lemma TokensLast(w: seq<char>, d: seq<char>)
    requires w != [] && Undelimited(w, d)
    ensures Tokens(w, d) == [w]
  {
    TokenLenOf(w, [], d);
    assert w + [] == w;
    assert w[|w|..] == [];
  }

  lemma {:induction false} TokenLenOf(w: seq<char>, rest: seq<char>, d: seq<char>)
    requires Undelimited(w, d) && (rest == [] || rest[0] in d)
    ensures TokenLen(w + rest, d) == |w|
    decreases |w|
  {
    if w != [] {
      assert (w + rest)[1..] == w[1..] + rest;
      TokenLenOf(w[1..], rest, d);
    } else {
      assert w + rest == rest;
    }
  }

  /** An input made only of delimiters has no token. */
  lemma {:induction false} TokensOfDelimiters(s: seq<char>, d: seq<char>)
    requires forall i :: 0 <= i < |s| ==> s[i] in d
    ensures Tokens(s, d) == []
    decreases |s|
  {
    if s != [] {
      TokensOfDelimiters(s[1..], d);
    }
  }

  /** A leading delimiter contributes no token. */
  lemma TokensSkip(c: char, rest: seq<char>, d: seq<char>)
    requires c in d
    ensures Tokens([c] + rest, d) == Tokens(rest, d)
  {
    assert ([c] + rest)[1..] == rest;
  }

  /** A run of two delimiters splits exactly like one: doubling a delimiter
      anywhere in the input changes no token. */
  lemma {:induction false} TokensCollapse(a: seq<char>, c: char, c': char, b: seq<char>, d: seq<char>)
    requires c in d && c' in d
    ensures Tokens(a + [c, c'] + b, d) == Tokens(a + [c] + b, d)
    decreases |a|
  {
    if a == [] {
      assert a + [c, c'] + b == [c] + ([c'] + b);
      assert a + [c] + b == [c] + b;
      TokensSkip(c, [c'] + b, d);
      TokensSkip(c', b, d);
      TokensSkip(c, b, d);
    } else if a[0] in d {
      assert a + [c, c'] + b == [a[0]] + (a[1..] + [c, c'] + b);
      assert a + [c] + b == [a[0]] + (a[1..] + [c] + b);
      TokensSkip(a[0], a[1..] + [c, c'] + b, d);
      TokensSkip(a[0], a[1..] + [c] + b, d);
      TokensCollapse(a[1..], c, c', b, d);
    } else {
      var k := TokenLen(a, d);
      assert a == a[..k] + a[k..];
      if k < |a| {
        var w := a[..k];
        var a2 := a[k + 1..];
        assert a == w + [a[k]] + a2;
        assert a + [c, c'] + b == w + [a[k]] + (a2 + [c, c'] + b);
        assert a + [c] + b == w + [a[k]] + (a2 + [c] + b);
        TokensCons(w, a[k], a2 + [c, c'] + b, d);
        TokensCons(w, a[k], a2 + [c] + b, d);
        TokensCollapse(a2, c, c', b, d);
      } else {
        assert a + [c, c'] + b == a + [c] + ([c'] + b);
        TokensCons(a, c, [c'] + b, d);
        TokensCons(a, c, b, d);
        TokensSkip(c', b, d);
      }
    }
  }

  /** One strtok_r call on s from cursor pos: skip delimiters, take the run
      of non-delimiters that follows, step the cursor past the delimiter
      that ends it (where strtok_r writes its NUL). */
  method NextToken(s: seq<char>, pos: nat, d: seq<char>) returns (tok: Option<seq<char>>, next: nat)
    requires pos <= |s|
    ensures pos <= next <= |s|
    ensures tok.None? ==> Tokens(s[pos..], d) == []
    ensures tok.Some? ==> pos < next && Tokens(s[pos..], d) == [tok.value] + Tokens(s[next..], d)
    ensures tok.Some? ==> forall c :: c in tok.value ==> c in s
  {
    var start := pos;
    while start < |s| && s[start] in d
      invariant pos <= start <= |s|
      invariant Tokens(s[pos..], d) == Tokens(s[start..], d)
    {
      SkipOne(s, start, d);
      start := start + 1;
    }
    if start == |s| {
      return None, start;
    }
    var end := start;
    while end < |s| && s[end] !in d
      invariant start <= end <= |s|
      invariant forall j :: start <= j < end ==> s[j] !in d
    {
      end := end + 1;
    }
    assert Undelimited(s[start..end], d);
    assert forall c :: c in s[start..end] ==> c in s;
    tok := Some(s[start..end]);
    next := if end < |s| then end + 1 else end;
    TakeOne(s, start, end, d);
  }

  lemma SkipOne(s: seq<char>, i: nat, d: seq<char>)
    requires i < |s| && s[i] in d
    ensures Tokens(s[i..], d) == Tokens(s[i + 1..], d)
  {
    assert s[i..] == [s[i]] + s[i + 1..];
    TokensSkip(s[i], s[i + 1..], d);
  }

  lemma TakeOne(s: seq<char>, start: nat, end: nat, d: seq<char>)
    requires start < end <= |s| && Undelimited(s[start..end], d)
    requires end < |s| ==> s[end] in d
    ensures Tokens(s[start..], d) == [s[start..end]] + Tokens(s[if end < |s| then end + 1 else end..], d)
  {
    if end < |s| {
      assert s[start..] == s[start..end] + [s[end]] + s[end + 1..];
      TokensCons(s[start..end], s[end], s[end + 1..], d);
    } else {
      assert s[start..] == s[start..end];
      TokensLast(s[start..end], d);
      assert s[end..] == [];
    }
  }
}
