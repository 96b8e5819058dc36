// Text helpers of the expander: Python's `str.strip()`, the comment-removing
// regular expression `/\*.*?\*/` (DOTALL) and `"\n".join(...)`.
module CssText {

  /** The characters Python's `str.isspace()` accepts; `str.strip()` with no
      argument removes exactly these from both ends. */
  const Whitespace: set<char> := {
    '\t', '\n', '\U{0B}', '\U{0C}', '\r', '\U{1C}', '\U{1D}', '\U{1E}', '\U{1F}', ' ',
    '\U{85}', '\U{A0}', '\U{1680}',
    '\U{2000}', '\U{2001}', '\U{2002}', '\U{2003}', '\U{2004}', '\U{2005}',
    '\U{2006}', '\U{2007}', '\U{2008}', '\U{2009}', '\U{200A}',
    '\U{2028}', '\U{2029}', '\U{202F}', '\U{205F}', '\U{3000}'
  }

  predicate IsSpace(c: char) {
    c in Whitespace
  }

  predicate AllSpace(s: string) {
    forall i | 0 <= i < |s| :: IsSpace(s[i])
  }

  /** Neither end of `s` is whitespace (vacuously true of ""). */
  predicate Solid(s: string) {
    s == [] || (!IsSpace(s[0]) && !IsSpace(s[|s| - 1]))
  }

  /** `s.lstrip()`: the suffix of `s` after its leading whitespace. */
  function TrimLeft(s: string): (r: string)
    ensures r == [] || !IsSpace(r[0])
  {
    if s != [] && IsSpace(s[0]) then TrimLeft(s[1..]) else s
  }

  /** `s.rstrip()`: the prefix of `s` before its trailing whitespace. */
  function TrimRight(s: string): (r: string)
    ensures |r| <= |s| && (r != [] ==> r[0] == s[0] && !IsSpace(r[|r| - 1]))
  {
    if s != [] && IsSpace(s[|s| - 1]) then TrimRight(s[..|s| - 1]) else s
  }

  /** `s.strip()`: the result neither starts nor ends with whitespace. */
  function Strip(s: string): (r: string)
    ensures Solid(r)
  {
    var l := TrimLeft(s);
    var r := TrimRight(l);
    assert r != [] ==> r[0] == l[0];
    r
  }

  lemma {:induction false} TrimLeftPast(w: string, t: string)
    requires AllSpace(w) && (t == [] || !IsSpace(t[0]))
    ensures TrimLeft(w + t) == t
  {
    if w != [] {
      assert (w + t)[1..] == w[1..] + t;
      TrimLeftPast(w[1..], t);
    }
  }

  lemma {:induction false} TrimRightPast(t: string, w: string)
    requires AllSpace(w) && (t == [] || !IsSpace(t[|t| - 1]))
    ensures TrimRight(t + w) == t
  {
    if w != [] {
      assert (t + w)[..|t + w| - 1] == t + w[..|w| - 1];
      TrimRightPast(t, w[..|w| - 1]);
    }
  }

  /** Whitespace around a solid string is exactly what `strip()` removes. */
  lemma StripPadded(lead: string, p: string, trail: string)
    requires AllSpace(lead) && AllSpace(trail) && Solid(p)
    ensures Strip(lead + p + trail) == p
  {
    if p == [] {
      assert lead + p + trail == (lead + trail) + [];
      TrimLeftPast(lead + trail, []);
    } else {
      assert lead + p + trail == lead + (p + trail);
      TrimLeftPast(lead, p + trail);
      TrimRightPast(p, trail);
    }
  }

  /** Appending a character to `s` appends it to `s.lstrip()`, unless both
      are whitespace only. */
  lemma {:induction false} TrimLeftAppend(s: string, c: char)
    ensures TrimLeft(s + [c]) == if TrimLeft(s) == [] && IsSpace(c) then [] else TrimLeft(s) + [c]
  {
    if s == [] {
      assert s + [c] == [c] && [c][1..] == [];
    } else if IsSpace(s[0]) {
      assert (s + [c])[0] == s[0] && (s + [c])[1..] == s[1..] + [c];
      TrimLeftAppend(s[1..], c);
    } else {
      assert (s + [c])[0] == s[0];
    }
  }

  /** Appending whitespace does not change the stripped text. */
  lemma StripAppendSpace(s: string, c: char)
    requires IsSpace(c)
    ensures Strip(s + [c]) == Strip(s)
  {
    TrimLeftAppend(s, c);
    var l := TrimLeft(s);
    if l != [] {
      assert (l + [c])[..|l + [c]| - 1] == l;
    }
  }

  /** Appending a non-whitespace character makes it the last character of
      the stripped text. */
  lemma StripAppendSolid(s: string, c: char)
    requires !IsSpace(c)
    ensures Strip(s + [c]) != [] && Strip(s + [c])[|Strip(s + [c])| - 1] == c
  {
    TrimLeftAppend(s, c);
    var l := TrimLeft(s) + [c];
    assert l[|l| - 1] == c;
  }

  // `true` iff `"*/"` starts at index `k` of `s`.
  predicate ClosesAt(s: string, k: int) {
    0 <= k && k + 1 < |s| && s[k] == '*' && s[k + 1] == '/'
  }

  // `true` iff `"/*"` starts at index `k` of `s`.
  predicate OpensAt(s: string, k: int) {
    0 <= k && k + 1 < |s| && s[k] == '/' && s[k + 1] == '*'
  }

  // The lazy `.*?\*/` part of the comment pattern: the first `"*/"` at or
  // after `from`, if any.
  function FindClose(s: string, from: nat): (r: Option<nat>)
    ensures r.Some? ==> from <= r.value && ClosesAt(s, r.value)
                        && forall k | from <= k < r.value :: !ClosesAt(s, k)
    ensures r.None? ==> forall k | from <= k :: !ClosesAt(s, k)
    decreases |s| - from
  {
    if from + 1 >= |s| then None
    else if ClosesAt(s, from) then Some(from)
    else FindClose(s, from + 1)
  }

  datatype Option<T> = None | Some(value: T)

  // `re.sub(r'/\*.*?\*/', '', s, flags=re.DOTALL)`: scanning left to right,
  // every `"/*"` that has a later `"*/"` (searched from two characters
  // after it) is removed together with everything up to and including
  // the first such `"*/"`.
  function StripComments(s: string): (r: string)
    ensures |r| <= |s|
    decreases |s|
  {
    if |s| < 2 then s
    else if OpensAt(s, 0) && FindClose(s, 2).Some? then StripComments(s[FindClose(s, 2).value + 2..])
    else [s[0]] + StripComments(s[1..])
  }

  // Text without `"/*"` comes back unchanged.
  lemma {:induction false} NoOpenerUnchanged(s: string)
    requires forall k :: !OpensAt(s, k)
    ensures StripComments(s) == s
  {
    if |s| >= 2 {
      assert !OpensAt(s, 0);
      assert forall k :: !OpensAt(s[1..], k) by {
        forall k ensures !OpensAt(s[1..], k) { assert !OpensAt(s, k + 1); }
      }
      NoOpenerUnchanged(s[1..]);
    }
  }

  // Text without `"*/"` comes back unchanged: an unterminated comment is kept.
  lemma {:induction false} NoCloserUnchanged(s: string)
    requires forall k :: !ClosesAt(s, k)
    ensures StripComments(s) == s
  {
    if |s| >= 2 {
      assert FindClose(s, 2).None?;
      assert forall k :: !ClosesAt(s[1..], k) by {
        forall k ensures !ClosesAt(s[1..], k) { assert !ClosesAt(s, k + 1); }
      }
      NoCloserUnchanged(s[1..]);
    }
  }

  // A comment at the very start, `"/*" + body + "*/"` with no `"*/"` in its
  // body, is removed.
  lemma LeadingCommentRemoved(body: string, after: string)
    requires forall k :: !ClosesAt(body, k)
    ensures StripComments("/*" + body + "*/" + after) == StripComments(after)
  {
    var s := "/*" + body + "*/" + after;
    var k := 2 + |body|;
    assert ClosesAt(s, k);
    forall j | 2 <= j < k ensures !ClosesAt(s, j) {
      if j + 1 < k {
        assert s[j] == body[j - 2] && s[j + 1] == body[j - 1];
        assert !ClosesAt(body, j - 2);
      } else {
        assert s[j + 1] == '*';
      }
    }
    assert FindClose(s, 2) == Some(k);
    assert s[k + 2..] == after;
  }

  // Such a comment is removed wherever it stands, and text before it that
  // holds no `"/*"` is kept as it is.
  lemma {:induction false} CommentRemoved(before: string, body: string, after: string)
    requires forall k :: !OpensAt(before, k)
    requires forall k :: !ClosesAt(body, k)
    ensures StripComments(before + "/*" + body + "*/" + after) == before + StripComments(after)
  {
    if before == [] {
      assert before + "/*" + body + "*/" + after == "/*" + body + "*/" + after;
      LeadingCommentRemoved(body, after);
    } else {
      var s := before + "/*" + body + "*/" + after;
      var rest := before[1..] + "/*" + body + "*/" + after;
      assert s == [before[0]] + rest;
      assert !OpensAt(s, 0) by {
        if |before| == 1 { assert s[1] == '/'; } else { assert !OpensAt(before, 0); }
      }
      assert forall k :: !OpensAt(before[1..], k) by {
        forall k ensures !OpensAt(before[1..], k) { assert !OpensAt(before, k + 1); }
      }
      assert StripComments(s) == [before[0]] + StripComments(rest);
      CommentRemoved(before[1..], body, after);
      assert [before[0]] + before[1..] == before;
    }
  }

  /** `sep.join(lines)`. */
  function Join(lines: seq<string>, sep: string): (r: string)
    ensures lines == [] ==> r == []
    ensures lines != [] ==> lines[0] <= r
    ensures |lines| == 1 ==> r == lines[0]
  {
    if lines == [] then ""
    else if |lines| == 1 then lines[0]
    else lines[0] + sep + Join(lines[1..], sep)
  }

  /** Joining one more line adds the separator and that line at the end:
      every line appears, in order, with one separator between neighbours. */
  lemma {:induction false} JoinAppend(lines: seq<string>, x: string, sep: string)
    requires lines != []
    ensures Join(lines + [x], sep) == Join(lines, sep) + sep + x
    decreases |lines|
  {
    var all := lines + [x];
    assert all[0] == lines[0] && all[1..] == lines[1..] + [x];
    if |lines| > 1 {
      JoinAppend(lines[1..], x, sep);
      calc {
        Join(all, sep);
        lines[0] + sep + Join(lines[1..] + [x], sep);
        lines[0] + sep + (Join(lines[1..], sep) + sep + x);
        (lines[0] + sep + Join(lines[1..], sep)) + sep + x;
      }
    } else {
      assert all[1..] == [x];
    }
  }
}
