/** `clean_html`: the substitution `re.sub('<.*?>', '', s)`.

    The pattern matches at a `<` when a `>` follows before any line break
    (`.` does not match `\n`); being lazy, it stops at the nearest such `>`.
    Where it does not match, the substitution keeps the character and moves on. */
module Html {

  /** Offset of the `>` that closes a tag opened just before `s`: the first
      `>` of `s`, provided no `\n` comes before it. */
  function TagClose(s: string): (r: nat)
    ensures r <= |s|
    ensures r < |s| ==> s[r] == '>' && forall j :: 0 <= j < r ==> s[j] != '>' && s[j] != '\n'
    ensures r == |s| ==> forall j :: 0 <= j < |s| && s[j] == '>' ==> exists k :: 0 <= k < j && s[k] == '\n'
  {
    if s == [] || s[0] == '\n' then |s|
    else if s[0] == '>' then 0
    else
      var k := TagClose(s[1..]);
      assert k == |s| - 1 ==> forall j :: 1 <= j < |s| && s[j] == '>' ==> exists k :: 0 <= k < j && s[k] == '\n'
        by {
          forall j | 1 <= j < |s| && s[j] == '>' && k == |s| - 1
            ensures exists k :: 0 <= k < j && s[k] == '\n'
          {
            assert s[1..][j - 1] == '>';
            var m :| 0 <= m < j - 1 && s[1..][m] == '\n';
            assert s[m + 1] == '\n';
          }
        }
      k + 1
  }

  /** The pattern `<.*?>` matches at the start of `s`. */
  predicate TagAt(s: string) {
    s != [] && s[0] == '<' && TagClose(s[1..]) < |s| - 1
  }

  /** `clean_html(s)`: delete every match of `<.*?>`, scanning left to right. */
  function CleanHtml(s: string): (r: string)
    ensures |r| <= |s|
    decreases |s|
  {
    if s == [] then []
    else if TagAt(s) then CleanHtml(s[TagClose(s[1..]) + 2..])
    else [s[0]] + CleanHtml(s[1..])
  }

  /** No position of `s` starts a match of the pattern. */
  predicate TagFree(s: string) {
    forall i :: 0 <= i < |s| ==> !TagAt(s[i..])
  }

  lemma TagFreeSuffix(s: string, k: nat)
    requires TagFree(s) && k <= |s|
    ensures TagFree(s[k..])
  {
    forall i | 0 <= i < |s[k..]| ensures !TagAt(s[k..][i..]) {
      assert s[k..][i..] == s[k + i..];
    }
  }

  /** A string with no `<` in it can hold no tag. */
  lemma NoOpenIsTagFree(s: string)
    requires '<' !in s
    ensures TagFree(s)
  {
    forall i | 0 <= i < |s| ensures !TagAt(s[i..]) {
      assert s[i..][0] == s[i];
    }
  }

  /** Input without a match comes back unchanged. */
  lemma {:induction false} CleanHtmlTagFree(s: string)
    requires TagFree(s)
    ensures CleanHtml(s) == s
    decreases |s|
  {
    if s != [] {
      assert s[0..] == s;
      TagFreeSuffix(s, 1);
      CleanHtmlTagFree(s[1..]);
    }
  }

  /** Input containing no `<` comes back unchanged. */
  lemma CleanHtmlNoOpen(s: string)
    requires '<' !in s
    ensures CleanHtml(s) == s
  {
    NoOpenIsTagFree(s);
    CleanHtmlTagFree(s);
  }

  /** If no tag can close before the first line break of `t`, none can
      close before the first line break of `CleanHtml(t)` either: removed
      text never holds a line break, and kept text holds no `>`. */
  lemma {:induction false} UnclosedStaysUnclosed(t: string)
    requires TagClose(t) == |t|
    ensures TagClose(CleanHtml(t)) == |CleanHtml(t)|
    decreases |t|
  {
    if t != [] {
      if t[0] != '\n' {
        assert t[0] != '>';
        assert TagClose(t[1..]) == |t[1..]|;
        assert !TagAt(t);
        UnclosedStaysUnclosed(t[1..]);
        var r := CleanHtml(t[1..]);
        assert CleanHtml(t) == [t[0]] + r;
        assert ([t[0]] + r)[1..] == r;
      } else {
        assert !TagAt(t);
        assert CleanHtml(t)[0] == '\n';
      }
    }
  }

  lemma TagFreeShift(c: char, r: string, i: nat)
    requires TagFree(r) && 1 <= i <= |r|
    ensures !TagAt(([c] + r)[i..])
  {
    assert ([c] + r)[i..] == r[i - 1..];
  }

  lemma TagFreePrepend(c: char, r: string)
    requires TagFree(r)
    requires c == '<' ==> TagClose(r) == |r|
    ensures TagFree([c] + r)
  {
    var s := [c] + r;
    assert !TagAt(s) by {
      assert s[1..] == r;
    }
    forall i | 0 <= i < |s| ensures !TagAt(s[i..]) {
      if i == 0 {
        assert s[0..] == s;
      } else {
        TagFreeShift(c, r, i);
      }
    }
  }

  /** The result holds no match of the pattern. */
  lemma {:induction false} CleanHtmlLeavesNoTag(s: string)
    ensures TagFree(CleanHtml(s))
    decreases |s|
  {
    if s != [] {
      if TagAt(s) {
        CleanHtmlLeavesNoTag(s[TagClose(s[1..]) + 2..]);
      } else {
        CleanHtmlLeavesNoTag(s[1..]);
        if s[0] == '<' {
          UnclosedStaysUnclosed(s[1..]);
        }
        TagFreePrepend(s[0], CleanHtml(s[1..]));
      }
    }
  }

  /** Cleaning twice is cleaning once. */
  lemma CleanHtmlIdempotent(s: string)
    ensures CleanHtml(CleanHtml(s)) == CleanHtml(s)
  {
    CleanHtmlLeavesNoTag(s);
    CleanHtmlTagFree(CleanHtml(s));
  }

  /** Text without `<` passes through, and cleaning resumes after it. */
  lemma {:induction false} CleanHtmlPlainPrefix(a: string, t: string)
    requires '<' !in a
    ensures CleanHtml(a + t) == a + CleanHtml(t)
    decreases |a|
  {
    if a != [] {
      assert (a + t)[0] == a[0] && (a + t)[1..] == a[1..] + t;
      CleanHtmlPlainPrefix(a[1..], t);
      assert a == [a[0]] + a[1..];
    } else {
      assert a + t == t;
    }
  }

  /** The nearest `>` closes the tag when no line break comes before it. */
  lemma TagCloseAtBody(body: string, rest: string)
    requires '>' !in body && '\n' !in body
    ensures TagClose(body + ['>'] + rest) == |body|
  {
    var t := body + ['>'] + rest;
    assert t[|body|] == '>';
    forall j | 0 <= j < |body| ensures t[j] == body[j] {
    }
  }

  /** A line break before any `>` leaves the tag unclosed. */
  lemma TagCloseBeforeBreak(body: string, rest: string)
    requires '>' !in body && '\n' !in body
    ensures TagClose(body + ['\n'] + rest) == |body + ['\n'] + rest|
  {
    var t := body + ['\n'] + rest;
    assert t[|body|] == '\n';
    forall j | 0 <= j < |body| ensures t[j] == body[j] {
    }
  }

  /** A string with no `>` holds no tag. */
  lemma NoCloseIsTagFree(s: string)
    requires '>' !in s
    ensures TagFree(s)
  {
    forall i | 0 <= i < |s| ensures !TagAt(s[i..]) {
      var t := s[i..][1..];
      assert forall j :: 0 <= j < |t| ==> t[j] == s[i + 1 + j];
    }
  }

  /** Up to the next line break, text with no `>` is kept as it is, each `<`
      in it included. */
  lemma {:induction false} CleanHtmlLine(body: string, rest: string)
    requires '>' !in body && '\n' !in body
    ensures CleanHtml(body + ['\n'] + rest) == body + ['\n'] + CleanHtml(rest)
    decreases |body|
  {
    var t := body + ['\n'] + rest;
    if body == [] {
      assert t == ['\n'] + rest && t[1..] == rest;
    } else {
      assert t[0] == body[0] && t[1..] == body[1..] + ['\n'] + rest;
      TagCloseBeforeBreak(body[1..], rest);
      CleanHtmlLine(body[1..], rest);
      assert body == [body[0]] + body[1..];
    }
  }

  /** A tag is deleted up to its nearest `>`; the text before it is kept and
      the text after it is cleaned in turn. */
  lemma CleanHtmlDropsTag(a: string, body: string, rest: string)
    requires '<' !in a && '>' !in body && '\n' !in body
    ensures CleanHtml(a + ['<'] + body + ['>'] + rest) == a + CleanHtml(rest)
  {
    var t := ['<'] + body + ['>'] + rest;
    assert a + ['<'] + body + ['>'] + rest == a + t;
    CleanHtmlPlainPrefix(a, t);
    assert t[1..] == body + ['>'] + rest;
    TagCloseAtBody(body, rest);
    assert t[|body| + 2..] == rest;
  }

  /** A `<` with no `>` before the next line break is kept, together with
      the text up to that break; cleaning resumes after it. */
  lemma CleanHtmlKeepsUnclosed(a: string, body: string, rest: string)
    requires '<' !in a && '>' !in body && '\n' !in body
    ensures CleanHtml(a + ['<'] + body + ['\n'] + rest) == a + ['<'] + body + ['\n'] + CleanHtml(rest)
  {
    var tail := body + ['\n'] + rest;
    var t := ['<'] + tail;
    var cleaned := CleanHtml(rest);
    assert CleanHtml(tail) == body + ['\n'] + cleaned by {
      CleanHtmlLine(body, rest);
    }
    assert CleanHtml(t) == ['<'] + CleanHtml(tail) by {
      TagCloseBeforeBreak(body, rest);
      CleanHtmlOpenKept(tail);
    }
    assert CleanHtml(a + t) == a + CleanHtml(t) by {
      CleanHtmlPlainPrefix(a, t);
    }
    assert a + ['<'] + body + ['\n'] + rest == a + t;
    assert a + (['<'] + (body + ['\n'] + cleaned)) == a + ['<'] + body + ['\n'] + cleaned;
  }

  /** A `<` whose tag cannot close is kept, and cleaning continues after it. */
  lemma CleanHtmlOpenKept(tail: string)
    requires TagClose(tail) == |tail|
    ensures CleanHtml(['<'] + tail) == ['<'] + CleanHtml(tail)
  {
    assert (['<'] + tail)[1..] == tail;
  }

  /** A `<` with no `>` after it is kept, with everything after it. */
  lemma CleanHtmlKeepsUnclosedAtEnd(a: string, body: string)
    requires '<' !in a && '>' !in body
    ensures CleanHtml(a + ['<'] + body) == a + ['<'] + body
  {
    var u := ['<'] + body;
    assert a + ['<'] + body == a + u;
    assert '>' !in u;
    NoCloseIsTagFree(u);
    CleanHtmlTagFree(u);
    CleanHtmlPlainPrefix(a, u);
  }
}
