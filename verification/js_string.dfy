/**
 The three JavaScript string operations the grid game relies on:
 `String.prototype.trim`, `String.prototype.split(' ')` and `Array.prototype.join(' ')`.
 Strings are sequences of Unicode scalar values; no normalisation takes place.
 */
module JsString {

  /** The code points `trim` removes: the WhiteSpace and LineTerminator
      productions of ECMAScript (tab, vertical tab, form feed, space,
      no-break space, byte-order mark, the Unicode space separators,
      line feed, carriage return, line and paragraph separators). */
  predicate IsWhitespace(c: char) {
    || '\t' <= c <= '\r'            // tab, line feed, vertical tab, form feed, carriage return
    || c == ' ' || c == '\U{00A0}' || c == '\U{1680}'
    || '\U{2000}' <= c <= '\U{200A}'
    || c == '\U{2028}' || c == '\U{2029}' || c == '\U{202F}' || c == '\U{205F}'
    || c == '\U{3000}' || c == '\U{FEFF}'
  }

  predicate AllWhitespace(s: string) {
    forall i :: 0 <= i < |s| ==> IsWhitespace(s[i])
  }

  /** Length of the longest all-whitespace prefix. */
  function LeadingWhitespace(s: string): (n: nat)
    ensures n <= |s| && AllWhitespace(s[..n])
    ensures n < |s| ==> !IsWhitespace(s[n])
  {
    if |s| > 0 && IsWhitespace(s[0]) then
      var m := LeadingWhitespace(s[1..]);
      assert s[..m + 1] == [s[0]] + s[1..][..m];
      1 + m
    else 0
  }

  /** Length of the longest all-whitespace suffix. */
  function TrailingWhitespace(s: string): (n: nat)
    ensures n <= |s| && AllWhitespace(s[|s| - n..])
    ensures n < |s| ==> !IsWhitespace(s[|s| - n - 1])
  {
    if |s| > 0 && IsWhitespace(s[|s| - 1]) then
      var init := s[..|s| - 1];
      var m := TrailingWhitespace(init);
      var suffix := s[|s| - (m + 1)..];
      forall i | 0 <= i < |suffix| ensures IsWhitespace(suffix[i]) {
        if i < m { assert suffix[i] == init[|init| - m..][i]; }
      }
      assert m + 1 < |s| ==> s[|s| - (m + 1) - 1] == init[|init| - m - 1];
      1 + m
    else 0
  }

  function TrimStart(s: string): string {
    s[LeadingWhitespace(s)..]
  }

  function TrimEnd(s: string): string {
    s[..|s| - TrailingWhitespace(s)]
  }

  /** `s.trim()`: `s` without whitespace at either end; nothing is left of an
      all-whitespace string. */
  function Trim(s: string): (r: string)
    ensures r == [] || (!IsWhitespace(r[0]) && !IsWhitespace(r[|r| - 1]))
    ensures r == [] <==> AllWhitespace(s)
  {
    var t := TrimStart(s);
    var n := LeadingWhitespace(s);
    assert AllWhitespace(s) <==> n == |s| by {
      if n < |s| { assert !IsWhitespace(s[n]); }
      else { assert s[..n] == s; }
    }
    TrimEnd(t)
  }

  /** `trim` only removes whitespace: the input is a whitespace prefix, its trim, and a whitespace suffix. */
  lemma TrimSplits(s: string) returns (pre: string, post: string)
    ensures AllWhitespace(pre) && AllWhitespace(post)
    ensures s == pre + Trim(s) + post
  {
    var n := LeadingWhitespace(s);
    var t := TrimStart(s);
    var m := TrailingWhitespace(t);
    var k := |t| - m;
    pre := s[..n];
    post := t[k..];
    assert Trim(s) == t[..k];
    Reassemble(s, n, k);
  }

  /** Cutting `s` at `n` and its tail at `k` loses nothing. */
  lemma Reassemble(s: string, n: nat, k: nat)
    requires n <= |s| && k <= |s| - n
    ensures s == s[..n] + s[n..][..k] + s[n..][k..]
  {
    assert s[n..] == s[n..][..k] + s[n..][k..];
  }

  /** `ws.join(' ')`. */
  function JoinWithSpace(ws: seq<string>): string {
    if |ws| == 0 then ""
    else if |ws| == 1 then ws[0]
    else ws[0] + " " + JoinWithSpace(ws[1..])
  }

  /** `s.split(' ')`: the maximal space-free pieces of `s`, empty pieces
      included; joining them with single spaces gives `s` back. */
  function SplitOnSpace(s: string): (r: seq<string>)
    ensures |r| >= 1
    ensures forall k :: 0 <= k < |r| ==> ' ' !in r[k]
    ensures JoinWithSpace(r) == s
  {
    if |s| == 0 then [""]
    else
      var rest := SplitOnSpace(s[1..]);
      if s[0] == ' ' then
        assert s == " " + s[1..];
        [""] + rest
      else
        var r := [[s[0]] + rest[0]] + rest[1..];
        assert s == [s[0]] + s[1..];
        assert r[1..] == rest[1..];
        r
  }

  /** Splitting at a space splits the two sides independently. */
  lemma {:induction false} SplitAppend(a: string, b: string)
    ensures SplitOnSpace(a + " " + b) == SplitOnSpace(a) + SplitOnSpace(b)
    decreases |a|
  {
    if |a| == 0 {
      assert a + " " + b == " " + b;
      assert (" " + b)[1..] == b;
    } else {
      assert (a + " " + b)[1..] == a[1..] + " " + b;
      SplitAppend(a[1..], b);
    }
  }

  /** A space-free string is a single piece. */
  lemma {:induction false} SplitSpaceFree(w: string)
    requires ' ' !in w
    ensures SplitOnSpace(w) == [w]
    decreases |w|
  {
    if |w| > 0 {
      assert ' ' !in w[1..] by {
        forall k | 0 <= k < |w[1..]| ensures w[1..][k] != ' ' {
          assert w[1..][k] == w[k + 1];
        }
      }
      SplitSpaceFree(w[1..]);
      assert w == [w[0]] + w[1..];
    }
  }

  /** `split(' ')` undoes `join(' ')` when no piece contains a space. */
  lemma {:induction false} SplitJoin(ws: seq<string>)
    requires |ws| >= 1
    requires forall k :: 0 <= k < |ws| ==> ' ' !in ws[k]
    ensures SplitOnSpace(JoinWithSpace(ws)) == ws
    decreases |ws|
  {
    if |ws| == 1 {
      SplitSpaceFree(ws[0]);
    } else {
      SplitAppend(ws[0], JoinWithSpace(ws[1..]));
      SplitSpaceFree(ws[0]);
      SplitJoin(ws[1..]);
      assert ws == [ws[0]] + ws[1..];
    }
  }

  /** Whitespace in front of `b` is invisible to `TrimStart` when all of `a` is whitespace;
      otherwise `TrimStart` never reaches `b`. */
  lemma TrimStartUnfold(s: string)
    ensures TrimStart(s) == if |s| > 0 && IsWhitespace(s[0]) then TrimStart(s[1..]) else s
  {
    if |s| > 0 && IsWhitespace(s[0]) {
      assert s[1 + LeadingWhitespace(s[1..])..] == s[1..][LeadingWhitespace(s[1..])..];
    }
  }

  lemma TrimEndUnfold(s: string)
    ensures TrimEnd(s) == if |s| > 0 && IsWhitespace(s[|s| - 1]) then TrimEnd(s[..|s| - 1]) else s
  {
    if |s| > 0 && IsWhitespace(s[|s| - 1]) {
      var m := TrailingWhitespace(s[..|s| - 1]);
      assert s[..|s| - (1 + m)] == s[..|s| - 1][..|s| - 1 - m];
    }
  }

  lemma {:induction false} TrimStartAppend(a: string, b: string)
    ensures TrimStart(a + b) == if AllWhitespace(a) then TrimStart(b) else TrimStart(a) + b
    decreases |a|
  {
    if |a| == 0 {
      assert a + b == b;
    } else if IsWhitespace(a[0]) {
      assert (a + b)[0] == a[0];
      assert (a + b)[1..] == a[1..] + b;
      TrimStartUnfold(a + b);
      TrimStartUnfold(a);
      TrimStartAppend(a[1..], b);
      WhitespaceCons(a);
    } else {
      assert (a + b)[0] == a[0];
      TrimStartUnfold(a + b);
      TrimStartUnfold(a);
      assert !AllWhitespace(a);
    }
  }

  /** A string of whitespace is whitespace at its head and all along its tail. */
  lemma WhitespaceCons(a: string)
    requires |a| > 0
    ensures AllWhitespace(a) <==> IsWhitespace(a[0]) && AllWhitespace(a[1..])
  {
    if IsWhitespace(a[0]) && AllWhitespace(a[1..]) {
      forall i | 0 <= i < |a| ensures IsWhitespace(a[i]) {
        if i > 0 { assert a[i] == a[1..][i - 1]; }
      }
    }
  }

  /** A string of whitespace is whitespace at its last position and all along its front. */
  lemma WhitespaceSnoc(b: string)
    requires |b| > 0
    ensures AllWhitespace(b) <==> IsWhitespace(b[|b| - 1]) && AllWhitespace(b[..|b| - 1])
  {
    var n := |b| - 1;
    if IsWhitespace(b[n]) && AllWhitespace(b[..n]) {
      forall i | 0 <= i < |b| ensures IsWhitespace(b[i]) {
        if i < n { assert b[i] == b[..n][i]; }
      }
    }
  }

  /** The mirror image of `TrimStartAppend`. */
  lemma {:induction false} TrimEndAppend(a: string, b: string)
    ensures TrimEnd(a + b) == if AllWhitespace(b) then TrimEnd(a) else a + TrimEnd(b)
    decreases |b|
  {
    if |b| == 0 {
      assert a + b == a;
    } else if IsWhitespace(b[|b| - 1]) {
      var n := |b| - 1;
      assert (a + b)[|a + b| - 1] == b[n];
      assert (a + b)[..|a + b| - 1] == a + b[..n];
      TrimEndUnfold(a + b);
      TrimEndUnfold(b);
      TrimEndAppend(a, b[..n]);
      WhitespaceSnoc(b);
    } else {
      assert (a + b)[|a + b| - 1] == b[|b| - 1];
      TrimEndUnfold(a + b);
      TrimEndUnfold(b);
      assert !AllWhitespace(b);
    }
  }

  /** Whitespace padding on either side never changes what `trim` returns. */
  lemma TrimIgnoresPadding(pre: string, s: string, post: string)
    requires AllWhitespace(pre) && AllWhitespace(post)
    ensures Trim(pre + s + post) == Trim(s)
  {
    assert pre + s + post == pre + (s + post);
    TrimStartAppend(pre, s + post);
    TrimStartAppend(s, post);
    if AllWhitespace(s) {
      TrimStartAppend(s, "");
      assert s + "" == s;
      assert TrimStart(post) == [];
      assert TrimStart(s) == [];
    } else {
      TrimEndAppend(TrimStart(s), post);
    }
  }

}
