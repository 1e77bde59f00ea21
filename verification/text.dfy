/**
 * The string built-ins the page script relies on: `trim`, `toLowerCase`,
 * `includes`, `split(',')`, the `\s` class of its regular expressions, and
 * its `escapeHtml` helper.
 */
module Text {
  import opened Collections

  /**
   * The characters `String.prototype.trim` removes and `\s` matches: the
   * ECMAScript WhiteSpace and LineTerminator code points.
   */
  predicate IsSpace(c: char)
  {
    || c == '\t' || c == '\n' || c == '\U{B}' || c == '\U{C}' || c == '\r' || c == ' '
    || c == '\U{A0}' || c == '\U{1680}' || ('\U{2000}' <= c <= '\U{200A}')
    || c == '\U{2028}' || c == '\U{2029}' || c == '\U{202F}' || c == '\U{205F}'
    || c == '\U{3000}' || c == '\U{FEFF}'
  }

  /** Neither end of `s` is whitespace. */
  predicate IsTrimmed(s: string)
  {
    s == [] || (!IsSpace(s[0]) && !IsSpace(s[|s| - 1]))
  }

  /** `s` with its leading whitespace removed. */
  function TrimStart(s: string): (r: string)
    ensures |r| <= |s| && r == s[|s| - |r|..]
    ensures forall i :: 0 <= i < |s| - |r| ==> IsSpace(s[i])
    ensures r != [] ==> !IsSpace(r[0])
    decreases |s|
  {
    if s != [] && IsSpace(s[0]) then TrimStart(s[1..]) else s
  }

  /** `s` with its trailing whitespace removed. */
  function TrimEnd(s: string): (r: string)
    ensures |r| <= |s| && r == s[..|r|]
    ensures forall i :: |r| <= i < |s| ==> IsSpace(s[i])
    ensures r != [] ==> !IsSpace(r[|r| - 1])
    decreases |s|
  {
    if s != [] && IsSpace(s[|s| - 1]) then TrimEnd(s[..|s| - 1]) else s
  }

  /** `String.prototype.trim`. */
  function Trim(s: string): string
  {
    TrimEnd(TrimStart(s))
  }

  /**
   * Trim cuts a slice out of `s`: everything before and after it is
   * whitespace, and the slice neither starts nor ends with whitespace.
   */
  lemma TrimIsSlice(s: string) returns (lo: nat, hi: nat)
    ensures lo <= hi <= |s| && Trim(s) == s[lo..hi]
    ensures forall i :: 0 <= i < lo ==> IsSpace(s[i])
    ensures forall i :: hi <= i < |s| ==> IsSpace(s[i])
    ensures IsTrimmed(Trim(s))
  {
    var t := TrimStart(s);
    lo := |s| - |t|;
    hi := lo + |TrimEnd(t)|;
    assert forall i :: hi <= i < |s| ==> s[i] == t[i - lo];
  }

  /** A string is blank after trimming exactly when it is all whitespace. */
  lemma TrimBlank(s: string)
    ensures Trim(s) == [] <==> forall i :: 0 <= i < |s| ==> IsSpace(s[i])
  {
    var lo, hi := TrimIsSlice(s);
    if Trim(s) == [] {
      forall i | 0 <= i < |s| ensures IsSpace(s[i]) {
        if lo <= i < hi {
          assert false;
        }
      }
    } else {
      assert s[lo] == Trim(s)[0];
    }
  }

  /** Trimming a string whose ends are not whitespace changes nothing; so trimming is idempotent. */
  lemma TrimTrimmed(s: string)
    requires IsTrimmed(s)
    ensures Trim(s) == s
  {
    assert TrimStart(s) == s;
  }

  /** A character absent from `s` is absent from its trimmed form. */
  lemma NotInTrim(s: string, c: char)
    requires c !in s
    ensures c !in Trim(s)
  {
    var lo, hi := TrimIsSlice(s);
  }

  /** `toLowerCase` on one character; only ASCII letters are mapped. */
  function LowerChar(c: char): char
  {
    if 'A' <= c <= 'Z' then (c as int + 32) as char else c
  }

  /** `String.prototype.toLowerCase`, restricted to the ASCII letters. */
  function ToLower(s: string): (r: string)
    ensures |r| == |s|
  {
    seq(|s|, i requires 0 <= i < |s| => LowerChar(s[i]))
  }

  /** Lowercasing leaves no upper-case ASCII letter and is idempotent. */
  lemma ToLowerIdempotent(s: string)
    ensures forall i :: 0 <= i < |s| ==> !('A' <= ToLower(s)[i] <= 'Z')
    ensures ToLower(ToLower(s)) == ToLower(s)
  {
  }

  /** Lowercasing never turns whitespace into a letter or back. */
  lemma LowerCharSpace(c: char)
    ensures IsSpace(LowerChar(c)) == IsSpace(c)
  {
  }

  /**
   * Lowering and trimming commute: the product search lowers then trims,
   * the tag filter trims then lowers, and both give the same string.
   */
  lemma {:induction false} ToLowerTrimCommute(s: string)
    ensures ToLower(Trim(s)) == Trim(ToLower(s))
  {
    TrimStartLower(s);
    TrimEndLower(TrimStart(s));
  }

  lemma {:induction false} TrimStartLower(s: string)
    ensures ToLower(TrimStart(s)) == TrimStart(ToLower(s))
    decreases |s|
  {
    if s != [] {
      LowerCharSpace(s[0]);
      assert ToLower(s)[1..] == ToLower(s[1..]);
      TrimStartLower(s[1..]);
    }
  }

  lemma {:induction false} TrimEndLower(s: string)
    ensures ToLower(TrimEnd(s)) == TrimEnd(ToLower(s))
    decreases |s|
  {
    if s != [] {
      LowerCharSpace(s[|s| - 1]);
      assert ToLower(s)[..|s| - 1] == ToLower(s[..|s| - 1]);
      TrimEndLower(s[..|s| - 1]);
    }
  }

  /** `q` occurs in `s` at some position. */
  ghost predicate Occurs(q: string, s: string)
  {
    exists i :: OccursAt(q, s, i)
  }

  /** `q` occurs in `s` starting at position `i`. */
  ghost predicate OccursAt(q: string, s: string, i: int)
  {
    0 <= i <= |s| - |q| && s[i..i + |q|] == q
  }

  /** `String.prototype.includes`: a left-to-right search for `q` in `s`. */
  function Includes(s: string, q: string): (r: bool)
    ensures r <==> Occurs(q, s)
    decreases |s|
  {
    if |q| > |s| then false
    else if s[..|q|] == q then
      assert OccursAt(q, s, 0);
      true
    else
      var r := Includes(s[1..], q);
      assert forall i :: OccursAt(q, s[1..], i) <==> OccursAt(q, s, i + 1) by {
        forall i ensures OccursAt(q, s[1..], i) <==> OccursAt(q, s, i + 1) {
          if 0 <= i <= |s| - 1 - |q| {
            assert s[1..][i..i + |q|] == s[i + 1..i + 1 + |q|];
          }
        }
      }
      assert Occurs(q, s) ==> Occurs(q, s[1..]) by {
        if Occurs(q, s) {
          var i :| OccursAt(q, s, i);
          assert OccursAt(q, s[1..], i - 1);
        }
      }
      r
  }

  /** The empty query occurs everywhere. */
  lemma IncludesEmpty(s: string)
    ensures Includes(s, [])
  {
    assert s[0..0] == [];
  }

  /** The inverse of `Split`: the pieces glued back together with `sep`. */
  function Join(pieces: seq<string>, sep: char): string
    requires |pieces| >= 1
    decreases |pieces|
  {
    if |pieces| == 1 then pieces[0] else pieces[0] + [sep] + Join(pieces[1..], sep)
  }

  /**
   * `String.prototype.split` on a one-character separator: the maximal
   * separator-free pieces, empty ones included; never an empty list.
   */
  function Split(s: string, sep: char): (pieces: seq<string>)
    ensures |pieces| >= 1
    ensures forall i :: 0 <= i < |pieces| ==> sep !in pieces[i]
    ensures Join(pieces, sep) == s
    decreases |s|
  {
    if sep !in s then [s]
    else
      var i := FirstIndex(s, sep);
      assert s == s[..i] + [sep] + s[i + 1..];
      [s[..i]] + Split(s[i + 1..], sep)
  }

  /** Splitting a joined list of separator-free pieces gives the pieces back. */
  lemma {:induction false} SplitJoin(pieces: seq<string>, sep: char)
    requires |pieces| >= 1
    requires forall i :: 0 <= i < |pieces| ==> sep !in pieces[i]
    ensures Split(Join(pieces, sep), sep) == pieces
    decreases |pieces|
  {
    if |pieces| > 1 {
      var s := Join(pieces, sep);
      var p := pieces[0];
      assert s == p + [sep] + Join(pieces[1..], sep);
      assert s[|p|] == sep;
      assert FirstIndex(s, sep) == |p|;
      assert s[..|p|] == p;
      assert s[|p| + 1..] == Join(pieces[1..], sep);
      SplitJoin(pieces[1..], sep);
    }
  }

  /** `.map(s => s.trim())`. */
  function TrimAll(pieces: seq<string>): (r: seq<string>)
    ensures |r| == |pieces|
    ensures forall i :: 0 <= i < |r| ==> r[i] == Trim(pieces[i])
  {
    seq(|pieces|, i requires 0 <= i < |pieces| => Trim(pieces[i]))
  }

  /**
   * The tag field: `raw.split(',').map(s => s.trim()).filter(Boolean)`.
   * Every tag is non-empty, holds no comma and has no surrounding whitespace.
   */
  function ParseTags(raw: string): (tags: seq<string>)
    ensures forall i :: 0 <= i < |tags| ==> tags[i] != [] && ',' !in tags[i] && IsTrimmed(tags[i])
  {
    var pieces := Split(raw, ',');
    var trimmed := TrimAll(pieces);
    assert forall i :: 0 <= i < |trimmed| ==> ',' !in trimmed[i] && IsTrimmed(trimmed[i]) by {
      forall i | 0 <= i < |trimmed| ensures ',' !in trimmed[i] && IsTrimmed(trimmed[i]) {
        NotInTrim(pieces[i], ',');
        var _, _ := TrimIsSlice(pieces[i]);
      }
    }
    Filter(t => t != [], trimmed)
  }

  /** A list of well-formed tags written comma-separated parses back to the same list. */
  lemma ParseTagsJoin(tags: seq<string>)
    requires |tags| >= 1
    requires forall i :: 0 <= i < |tags| ==> tags[i] != [] && ',' !in tags[i] && IsTrimmed(tags[i])
    ensures ParseTags(Join(tags, ',')) == tags
  {
    SplitJoin(tags, ',');
    forall i | 0 <= i < |tags| ensures Trim(tags[i]) == tags[i] {
      TrimTrimmed(tags[i]);
    }
    assert TrimAll(tags) == tags;
    FilterAll(t => t != [], tags);
  }

  /** An empty or blank tag field yields no tags. */
  lemma ParseTagsBlank(raw: string)
    requires forall i :: 0 <= i < |raw| ==> IsSpace(raw[i])
    ensures ParseTags(raw) == []
  {
    TrimBlank(raw);
  }

  /**
   * `s.replace(/c/g, rep)`: every `c` replaced by `rep`. The first two
   * clauses with `ReplaceAllAppend` fix the result for every string: the
   * empty string stays empty, a single `c` becomes `rep` and any other
   * single character stays.
   */
  function ReplaceAll(s: string, c: char, rep: string): (r: string)
    ensures s == [] ==> r == []
    ensures |s| == 1 ==> r == if s[0] == c then rep else s
    ensures c !in rep ==> c !in r
    ensures forall d :: d !in s && d !in rep ==> d !in r
    decreases |s|
  {
    if s == [] then []
    else (if s[0] == c then rep else [s[0]]) + ReplaceAll(s[1..], c, rep)
  }

  /** What the page's escape turns one character into. */
  function EscapeChar(c: char): string
  {
    if c == '<' then "&lt;" else if c == '>' then "&gt;" else [c]
  }

  /** What escaping with `&` handled turns one character into. */
  function EscapeCharFull(c: char): string
  {
    if c == '&' then "&amp;" else EscapeChar(c)
  }

  /** The page's `escapeHtml`: `<` becomes `&lt;`, then `>` becomes `&gt;`. */
  function EscapeHtml(s: string): (r: string)
    ensures '<' !in r && '>' !in r
  {
    ReplaceAll(ReplaceAll(s, '<', "&lt;"), '>', "&gt;")
  }

  /**
   * How a browser reads text placed in `innerHTML`, restricted to the three
   * character references escaping produces: `&lt;`, `&gt;` and `&amp;`.
   */
  function HtmlDecode(s: string): string
    decreases |s|
  {
    if s == [] then []
    else if |s| >= 4 && s[..4] == "&lt;" then "<" + HtmlDecode(s[4..])
    else if |s| >= 4 && s[..4] == "&gt;" then ">" + HtmlDecode(s[4..])
    else if |s| >= 5 && s[..5] == "&amp;" then "&" + HtmlDecode(s[5..])
    else [s[0]] + HtmlDecode(s[1..])
  }

  /** Two different texts that `EscapeHtml` maps to the same markup, so a task text `&lt;` is shown as `<`. */
  lemma EscapeHtmlAmpersandClash()
    ensures EscapeHtml("<") == EscapeHtml("&lt;") == "&lt;"
    ensures HtmlDecode(EscapeHtml("&lt;")) == "<"
  {
    assert ReplaceAll("<", '<', "&lt;") == "&lt;";
    assert ReplaceAll("&lt;", '<', "&lt;") == "&lt;";
    assert ReplaceAll("&lt;", '>', "&gt;") == "&lt;";
    assert "<" + HtmlDecode([]) == "<";
  }

  /** The one-character view of the two-pass escape; needed to reason character by character. */
  lemma EscapeHtmlCons(s: string)
    requires s != []
    ensures EscapeHtml(s) == EscapeChar(s[0]) + EscapeHtml(s[1..])
  {
    var first := if s[0] == '<' then "&lt;" else [s[0]];
    var rest := ReplaceAll(s[1..], '<', "&lt;");
    assert ReplaceAll(s, '<', "&lt;") == first + rest;
    ReplaceAllAppend(first, rest, '>', "&gt;");
  }

  lemma {:induction false} ReplaceAllAppend(a: string, b: string, c: char, rep: string)
    ensures ReplaceAll(a + b, c, rep) == ReplaceAll(a, c, rep) + ReplaceAll(b, c, rep)
    decreases |a|
  {
    if a != [] {
      var head := if a[0] == c then rep else [a[0]];
      assert (a + b)[0] == a[0];
      assert (a + b)[1..] == a[1..] + b;
      ReplaceAllAppend(a[1..], b, c, rep);
      calc {
        ReplaceAll(a + b, c, rep);
        head + ReplaceAll(a[1..] + b, c, rep);
        head + (ReplaceAll(a[1..], c, rep) + ReplaceAll(b, c, rep));
        (head + ReplaceAll(a[1..], c, rep)) + ReplaceAll(b, c, rep);
        ReplaceAll(a, c, rep) + ReplaceAll(b, c, rep);
      }
    } else {
      assert a + b == b;
    }
  }

  /** The browser reads one escaped character back, whatever follows it. */
  lemma DecodeEscapedChar(c: char, rest: string)
    ensures HtmlDecode(EscapeCharFull(c) + rest) == [c] + HtmlDecode(rest)
  {
    if c == '<' {
      assert ("&lt;" + rest)[..4] == "&lt;";
      assert ("&lt;" + rest)[4..] == rest;
    } else if c == '>' {
      assert ("&gt;" + rest)[..4] == "&gt;";
      assert ("&gt;" + rest)[4..] == rest;
    } else if c == '&' {
      DecodeAmpersand(rest);
    } else {
      assert ([c] + rest)[1..] == rest;
    }
  }

  lemma DecodeAmpersand(rest: string)
    ensures HtmlDecode("&amp;" + rest) == "&" + HtmlDecode(rest)
  {
    var t := "&amp;" + rest;
    assert t[..5] == "&amp;";
    assert t[..4] != "&lt;" && t[..4] != "&gt;" by {
      assert t[1] == 'a';
    }
    assert t[5..] == rest;
  }

  /** The page's escape does read back correctly for text without `&`. */
  lemma {:induction false} EscapeHtmlRoundTripWithoutAmpersand(s: string)
    requires '&' !in s
    ensures HtmlDecode(EscapeHtml(s)) == s
    decreases |s|
  {
    if s != [] {
      EscapeHtmlCons(s);
      EscapeHtmlRoundTripWithoutAmpersand(s[1..]);
      DecodeEscapedChar(s[0], EscapeHtml(s[1..]));
    }
  }

  /** Escaping with `&` handled first: `&` becomes `&amp;`, then `<` and `>` as before. */
  function EscapeHtmlFull(s: string): (r: string)
    ensures '<' !in r && '>' !in r
  {
    EscapeHtml(ReplaceAll(s, '&', "&amp;"))
  }

  lemma EscapeHtmlFullCons(s: string)
    requires s != []
    ensures EscapeHtmlFull(s) == EscapeCharFull(s[0]) + EscapeHtmlFull(s[1..])
  {
    var first := if s[0] == '&' then "&amp;" else [s[0]];
    var rest := ReplaceAll(s[1..], '&', "&amp;");
    assert ReplaceAll(s, '&', "&amp;") == first + rest;
    EscapeHtmlAppend(first, rest);
    if s[0] == '&' {
      AmpersandEntityUnchanged();
    } else {
      EscapeHtmlCons(first);
    }
  }

  lemma AmpersandEntityUnchanged()
    ensures EscapeHtml("&amp;") == "&amp;"
  {
    assert ReplaceAll("&amp;", '<', "&lt;") == "&amp;";
    assert ReplaceAll("&amp;", '>', "&gt;") == "&amp;";
  }

  lemma EscapeHtmlAppend(a: string, b: string)
    ensures EscapeHtml(a + b) == EscapeHtml(a) + EscapeHtml(b)
  {
    ReplaceAllAppend(a, b, '<', "&lt;");
    ReplaceAllAppend(ReplaceAll(a, '<', "&lt;"), ReplaceAll(b, '<', "&lt;"), '>', "&gt;");
  }

  /** With `&` escaped first, every text reads back exactly as it was written. */
  lemma {:induction false} EscapeHtmlFullRoundTrip(s: string)
    ensures HtmlDecode(EscapeHtmlFull(s)) == s
    decreases |s|
  {
    if s != [] {
      EscapeHtmlFullCons(s);
      EscapeHtmlFullRoundTrip(s[1..]);
      DecodeEscapedChar(s[0], EscapeHtmlFull(s[1..]));
    }
  }
}
