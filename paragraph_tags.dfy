/** `stripPTags` deletes, in one global replacement, every match of the pattern
    `<p[^>]*>|<\/p>`: a left-to-right scan that deletes each leftmost,
    non-overlapping match and keeps every other character. The first
    alternative is tried before the second. `[^>]*` cannot cross a `>`, so
    `<p[^>]*>` matched at a position runs exactly to the first `>` after the
    `<p`; it also matches tags such as `<pre>` and `<param ...>`. The match is
    case-sensitive and never empty. */
module ParagraphTags {
  import opened Wrappers
  import opened Sequences

  /** `<p` starts at index `i` of `s`. */
  predicate OpensAt(s: string, i: nat)
  {
    i + 1 < |s| && s[i] == '<' && s[i + 1] == 'p'
  }

  /** `</p>` starts at index `i` of `s`. */
  predicate ClosesAt(s: string, i: nat)
  {
    i + 3 < |s| && s[i] == '<' && s[i + 1] == '/' && s[i + 2] == 'p' && s[i + 3] == '>'
  }

  /** Index of the first `c` in `s` at or after `from`. */
  function IndexFrom(s: string, c: char, from: nat): (r: Option<nat>)
    ensures r.Some? ==> from <= r.value < |s| && s[r.value] == c
    ensures r.Some? ==> forall k :: from <= k < r.value ==> s[k] != c
    ensures r.None? ==> forall k :: from <= k < |s| ==> s[k] != c
    decreases |s| - from
  {
    if from >= |s| then None
    else if s[from] == c then Some(from)
    else IndexFrom(s, c, from + 1)
  }

  /** Length of the match of `<p[^>]*>` at the start of `s`, if there is one:
      `<p`, then everything up to and including the first `>`. */
  function OpenTagMatch(s: string): (r: Option<nat>)
    ensures r.Some? ==> 3 <= r.value <= |s| && OpensAt(s, 0) && s[r.value - 1] == '>'
    ensures r.Some? ==> forall k :: 2 <= k < r.value - 1 ==> s[k] != '>'
    ensures r.None? <==> !OpensAt(s, 0) || forall k :: 2 <= k < |s| ==> s[k] != '>'
  {
    if OpensAt(s, 0) then
      match IndexFrom(s, '>', 2)
      case Some(j) => Some(j + 1)
      case None => None
    else None
  }

  /** Length of the match of `<\/p>` at the start of `s`, if there is one. */
  function CloseTagMatch(s: string): (r: Option<nat>)
    ensures r.Some? <==> ClosesAt(s, 0)
    ensures r.Some? ==> r.value == 4 <= |s|
  {
    if ClosesAt(s, 0) then Some(4) else None
  }

  /** Length of the match of the alternation at the start of `s`: the first
      alternative if it matches, otherwise the second. */
  function MatchAt(s: string): (r: Option<nat>)
    ensures r.Some? ==> 0 < r.value <= |s|
    ensures r.None? <==> OpenTagMatch(s).None? && !ClosesAt(s, 0)
    ensures r == OpenTagMatch(s) || r == CloseTagMatch(s)
  {
    if OpenTagMatch(s).Some? then OpenTagMatch(s) else CloseTagMatch(s)
  }

  /** The replacement itself: deletes every match found by the left-to-right scan
      and keeps every other character, so the result is never longer. */
  function StripPTags(html: string): (r: string)
    ensures |r| <= |html|
    decreases |html|
  {
    if html == [] then []
    else match MatchAt(html)
      case Some(n) => StripPTags(html[n..])
      case None => [html[0]] + StripPTags(html[1..])
  }

  /** What is kept is kept in order: the result is a subsequence of the input. */
  lemma {:induction false} StripIsSubsequence(html: string)
    ensures IsSubsequence(StripPTags(html), html)
    decreases |html|
  {
    if html != [] {
      match MatchAt(html)
      case Some(n) =>
        StripIsSubsequence(html[n..]);
        SubsequenceOfSuffix(StripPTags(html[n..]), html, n);
      case None =>
        StripIsSubsequence(html[1..]);
        var r := StripPTags(html);
        assert r[0] == html[0] && r[1..] == StripPTags(html[1..]);
    }
  }

  /** Where no match starts at the first character, that character is kept. */
  lemma HeadKept(s: string)
    requires s != [] && !OpensAt(s, 0) && !ClosesAt(s, 0)
    ensures StripPTags(s) == [s[0]] + StripPTags(s[1..])
  {
  }

  /** A string in which neither `<p` nor `</p>` occurs is returned unchanged. */
  lemma {:induction false} NoTagUnchanged(s: string)
    requires forall i: nat :: !OpensAt(s, i) && !ClosesAt(s, i)
    ensures StripPTags(s) == s
    decreases |s|
  {
    if s != [] {
      HeadKept(s);
      forall i: nat
        ensures !OpensAt(s[1..], i) && !ClosesAt(s[1..], i)
      {
        assert !OpensAt(s, i + 1) && !ClosesAt(s, i + 1);
      }
      NoTagUnchanged(s[1..]);
    }
  }

  /** Every match ends with `>`, so a string without `>` is returned unchanged;
      in particular an unterminated `<p` is kept. */
  lemma {:induction false} NoClosingBracketUnchanged(s: string)
    requires '>' !in s
    ensures StripPTags(s) == s
    decreases |s|
  {
    if s != [] {
      assert IndexFrom(s, '>', 2).None?;
      assert !ClosesAt(s, 0) by {
        if |s| > 3 {
          assert s[3] in s;
        }
      }
      assert MatchAt(s).None?;
      assert '>' !in s[1..] by {
        assert forall x :: x in s[1..] ==> x in s;
      }
      NoClosingBracketUnchanged(s[1..]);
    }
  }

  /** Text free of `<` passes through untouched in front of whatever follows. */
  lemma {:induction false} PlainPrefixKept(text: string, rest: string)
    requires '<' !in text
    ensures StripPTags(text + rest) == text + StripPTags(rest)
    decreases |text|
  {
    if text == [] {
      assert text + rest == rest;
    } else {
      var s := text + rest;
      assert s[0] == text[0] && s[1..] == text[1..] + rest;
      assert text[0] in text;
      HeadKept(s);
      assert '<' !in text[1..] by {
        assert forall x :: x in text[1..] ==> x in text;
      }
      PlainPrefixKept(text[1..], rest);
      assert [text[0]] + (text[1..] + StripPTags(rest)) == text + StripPTags(rest);
    }
  }

  /** An opening tag `<p` + attributes + `>`, attributes free of `>`, is deleted whole. */
  lemma OpenTagDropped(attrs: string, rest: string)
    requires '>' !in attrs
    ensures StripPTags("<p" + attrs + ">" + rest) == StripPTags(rest)
  {
    var s := "<p" + attrs + ">" + rest;
    var j := 2 + |attrs|;
    assert s[0] == '<' && s[1] == 'p' && s[j] == '>';
    assert forall k :: 2 <= k < j ==> s[k] == attrs[k - 2];
    assert forall k :: 2 <= k < j ==> s[k] != '>' by {
      forall k | 2 <= k < j ensures s[k] != '>' {
        assert attrs[k - 2] in attrs;
      }
    }
    assert IndexFrom(s, '>', 2) == Some(j);
    assert MatchAt(s) == Some(j + 1);
    assert s[j + 1..] == rest;
  }

  /** A closing tag `</p>` is deleted whole. */
  lemma CloseTagDropped(rest: string)
    ensures StripPTags("</p>" + rest) == StripPTags(rest)
  {
    var s := "</p>" + rest;
    assert s[0] == '<' && s[1] == '/' && s[2] == 'p' && s[3] == '>';
    assert MatchAt(s) == Some(4);
    assert s[4..] == rest;
  }

  /** A title wrapped in one paragraph, with or without attributes on the opening
      tag, comes out as its bare text followed by the stripped remainder. */
  lemma WrappedParagraphStripped(attrs: string, text: string, rest: string)
    requires '>' !in attrs && '<' !in text
    ensures StripPTags("<p" + attrs + ">" + text + "</p>" + rest) == text + StripPTags(rest)
  {
    assert "<p" + attrs + ">" + text + "</p>" + rest == "<p" + attrs + ">" + (text + ("</p>" + rest));
    OpenTagDropped(attrs, text + ("</p>" + rest));
    PlainPrefixKept(text, "</p>" + rest);
    CloseTagDropped(rest);
  }

  /** A string with no match at its start and no `<` after it is unchanged. */
  lemma HeadThenPlainKept(c: string)
    requires c != [] && !OpensAt(c, 0) && !ClosesAt(c, 0) && '<' !in c[1..]
    ensures StripPTags(c) == c
  {
    HeadKept(c);
    assert c[1..] == c[1..] + [];
    PlainPrefixKept(c[1..], []);
    assert [c[0]] + c[1..] == c;
  }

  /** Only the exact `</p>` closes: the closing tag of any longer element name
      is kept. */
  lemma OtherCloseTagKept(name: string)
    requires |name| >= 2 && '<' !in name && '>' !in name
    ensures StripPTags("</" + name + ">") == "</" + name + ">"
  {
    var c := "</" + name + ">";
    assert c[1] == '/' && c[3] == name[1];
    assert name[1] in name;
    assert '<' !in c[1..] by {
      forall k | 1 <= k < |c| ensures c[k] != '<' {
        if 2 <= k < 2 + |name| {
          assert c[k] == name[k - 2];
          assert name[k - 2] in name;
        }
      }
    }
    HeadThenPlainKept(c);
  }

  /** The opening alternative is not limited to paragraphs: for an element whose
      name starts with `p` but is longer (`pre`, `param`, `picture`), the opening
      tag is deleted while its closing tag is kept. */
  lemma OtherOpenTagDropped(name: string, text: string)
    requires |name| >= 2 && name[0] == 'p'
    requires '<' !in name && '>' !in name && '<' !in text
    ensures StripPTags("<" + name + ">" + text + "</" + name + ">") == text + "</" + name + ">"
  {
    var close := "</" + name + ">";
    var s := "<" + name + ">" + text + "</" + name + ">";
    assert text + "</" + name + ">" == text + close;
    assert name == [name[0]] + name[1..];
    assert s == "<p" + name[1..] + ">" + (text + close);
    assert '>' !in name[1..] by {
      assert forall x :: x in name[1..] ==> x in name;
    }
    OpenTagDropped(name[1..], text + close);
    PlainPrefixKept(text, close);
    OtherCloseTagKept(name);
  }

  /** One pass is not idempotent: deleting the inner `<p>` of `<<p>p>` joins a new
      `<p>`, which a second pass deletes. */
  lemma NotIdempotent()
    ensures StripPTags("<<p>p>") == "<p>"
    ensures StripPTags(StripPTags("<<p>p>")) == ""
  {
    var s := "<<p>p>";
    assert s[1] == '<' && s[3] == '>';
    HeadKept(s);
    assert s[1..] == "<p" + "" + ">" + "p>";
    OpenTagDropped("", "p>");
    PlainPrefixKept("p>", "");
    assert "<p>" == "<p" + "" + ">" + "";
    OpenTagDropped("", "");
  }
}
