/**
 * The two splicers of the shader merger, which edit the original shader
 * text once every overlay has been read: replacements swap a function's
 * brace-matched body for the recorded one; extensions add a local
 * `return_value`, one call per extension, and the renamed extension
 * definitions.  Merge ties the tokenizer and the splicers together.
 */
module ShaderSplice {
  import opened Wrappers
  import opened Text
  import opened ShaderScan

  // ---------------------------------------------------------------------
  // The brace matcher
  // ---------------------------------------------------------------------

  /** The brace depth once s[k] has been read, counting from the `{` at `open`. */
  function DepthAfter(s: string, open: nat, k: nat): int
    requires open <= k < |s|
    decreases k - open
  {
    if k == open then Delta(s[open]) else DepthAfter(s, open, k - 1) + Delta(s[k])
  }

  /** The depth is the net brace count of the text read so far. */
  lemma {:induction false} DepthIsNet(s: string, open: nat, k: nat)
    requires open <= k < |s|
    ensures DepthAfter(s, open, k) == Net(s[open..k + 1])
    decreases k - open
  {
    if k == open {
      assert s[open..k + 1] == [s[open]];
      NetAppend([], s[open]);
    } else {
      DepthIsNet(s, open, k - 1);
      assert s[open..k + 1] == s[open..k] + [s[k]];
      NetAppend(s[open..k], s[k]);
    }
  }

  /** From index i on, the first index at which the depth count is 0, or -1. */
  function CloseFrom(s: string, open: nat, i: nat): (r: int)
    requires open < i <= |s|
    ensures r == -1 || i <= r < |s|
    decreases |s| - i
  {
    if i == |s| then -1
    else if DepthAfter(s, open, i) == 0 then i else CloseFrom(s, open, i + 1)
  }

  /**
   * The brace matcher: the first index after the `{` at `open` at which the
   * depth count comes back to 0, or -1 when it never does.
   */
  function MatchingClose(s: string, open: nat): (r: int)
    requires open < |s|
    ensures r == -1 || open < r < |s|
  {
    CloseFrom(s, open, open + 1)
  }

  /** While the depth has stayed at 1 or more before i, CloseFrom finds where it first reaches 0. */
  lemma {:induction false} CloseFromFirst(s: string, open: nat, i: nat)
    requires open < i <= |s|
    requires forall k :: open <= k < i ==> DepthAfter(s, open, k) >= 1
    ensures var r := CloseFrom(s, open, i);
      (r == -1 && forall k :: open <= k < |s| ==> DepthAfter(s, open, k) >= 1) ||
      (i <= r < |s| && DepthAfter(s, open, r) == 0 && forall k :: open <= k < r ==> DepthAfter(s, open, k) >= 1)
    decreases |s| - i
  {
    if i < |s| && DepthAfter(s, open, i) != 0 {
      assert DepthAfter(s, open, i) == DepthAfter(s, open, i - 1) + Delta(s[i]);
      CloseFromFirst(s, open, i + 1);
    }
  }

  /**
   * What the matcher finds: -1 when the depth never comes back to 0, and
   * otherwise a `}` at which it does so for the first time.
   */
  lemma MatchingCloseSpec(s: string, open: nat)
    requires open < |s| && s[open] == '{'
    ensures var r := MatchingClose(s, open);
      (r == -1 && forall k :: open <= k < |s| ==> DepthAfter(s, open, k) >= 1) ||
      (open < r < |s| && s[r] == '}' && ClosesFirst(s, open, r))
  {
    CloseFromFirst(s, open, open + 1);
    var r := MatchingClose(s, open);
    if r >= 0 {
      assert DepthAfter(s, open, r) == DepthAfter(s, open, r - 1) + Delta(s[r]);
      assert ClosesFirst(s, open, r);
    }
  }

  /** A brace at which the depth first comes back to 0 is the one the matcher finds. */
  lemma MatchingCloseFirst(s: string, open: nat, close: nat)
    requires open <= close < |s| && s[open] == '{' && ClosesFirst(s, open, close)
    ensures MatchingClose(s, open) == close
  {
    CloseFromFirst(s, open, open + 1);
    var r := MatchingClose(s, open);
    assert DepthAfter(s, open, close) == 0;
    if r == -1 || r < close || r > close {
      assert false;
    }
  }

  /** A whole block written at `open` is matched by its own last brace. */
  lemma MatchingCloseOfBlock(s: string, open: nat, b: string)
    requires BalancedBlock(b) && open + |b| <= |s| && s[open..open + |b|] == b
    ensures MatchingClose(s, open) == open + |b| - 1
  {
    var close := open + |b| - 1;
    assert s[open] == b[0];
    assert s[open..close + 1] == b;
    DepthIsNet(s, open, close);
    forall k | open <= k < close ensures DepthAfter(s, open, k) >= 1 {
      DepthIsNet(s, open, k);
      assert s[open..k + 1] == b[..k + 1 - open];
    }
    MatchingCloseFirst(s, open, close);
  }

  /** The matcher as the merger runs it: a depth counter over the text from the `{` on. */
  method FindClosingBrace(s: string, open: nat) returns (r: int)
    requires open < |s| && s[open] == '{'
    ensures r == MatchingClose(s, open)
  {
    var depth: nat := 0;
    var i := open;
    while i < |s|
      invariant open <= i <= |s|
      invariant i > open ==> depth == DepthAfter(s, open, i - 1) >= 1
      invariant i > open ==> MatchingClose(s, open) == CloseFrom(s, open, i)
      invariant i == open ==> depth == 0
    {
      if s[i] == '{' {
        depth := depth + 1;
      } else if s[i] == '}' {
        depth := depth - 1;
        if depth == 0 {
          return i;
        }
      }
      i := i + 1;
    }
    r := -1;
  }

  // ---------------------------------------------------------------------
  // Replacements
  // ---------------------------------------------------------------------

  /** Where a replacement lands: its declaration, the `{` after it, and the `}` matching that. */
  datatype Span = Span(Decl: nat, Open: nat, Close: nat)

  /**
   * The span a replacement of `f` edits: the first occurrence of its
   * declaration, the first `{` at or after its end, and the brace matching
   * that one.
   */
  predicate IsSpan(text: string, f: ModdedFunction, sp: Span) {
    FirstAt(text, f.Declaration, 0, sp.Decl) &&
    FirstAt(text, "{", sp.Decl + |f.Declaration|, sp.Open) &&
    sp.Open < sp.Close < |text| && ClosesFirst(text, sp.Open, sp.Close)
  }

  /** The depth count from `open` first comes back to 0 at `close`. */
  predicate ClosesFirst(text: string, open: nat, close: nat)
    requires open <= close < |text|
  {
    DepthAfter(text, open, close) == 0 &&
    forall k :: open <= k < close ==> DepthAfter(text, open, k) >= 1
  }

  /** The span of a replacement, found as the merger finds it. */
  function ReplacementSpan(text: string, f: ModdedFunction): (r: Option<Span>)
    ensures r.Some? ==> r.value.Decl <= r.value.Open < r.value.Close < |text|
  {
    var decl := Find(text, f.Declaration, 0);
    if decl < 0 then None
    else
      var open := Find(text, "{", decl + |f.Declaration|);
      if open < 0 then None
      else
        var close := MatchingClose(text, open);
        if close < 0 then None else Some(Span(decl, open, close))
  }

  /** A span the merger finds is a span. */
  lemma ReplacementSpanIsSpan(text: string, f: ModdedFunction)
    ensures ReplacementSpan(text, f).Some? ==> IsSpan(text, f, ReplacementSpan(text, f).value)
  {
    var decl := Find(text, f.Declaration, 0);
    if decl >= 0 {
      var open := Find(text, "{", decl + |f.Declaration|);
      if open >= 0 {
        OccursAtChar(text, '{', open);
        MatchingCloseSpec(text, open);
      }
    }
  }

  /** The merger finds a span exactly when there is one, and then it finds that one. */
  lemma ReplacementSpanFound(text: string, f: ModdedFunction)
    ensures ReplacementSpan(text, f).Some? ==> IsSpan(text, f, ReplacementSpan(text, f).value)
    ensures ReplacementSpan(text, f).None? ==> forall sp :: !IsSpan(text, f, sp)
    ensures forall sp :: IsSpan(text, f, sp) ==> ReplacementSpan(text, f) == Some(sp)
  {
    ReplacementSpanIsSpan(text, f);
    var decl := Find(text, f.Declaration, 0);
    FindIsFirst(text, f.Declaration, 0, decl);
    if decl >= 0 {
      var from := decl + |f.Declaration|;
      var open := Find(text, "{", from);
      FindIsFirst(text, "{", from, open);
      forall sp | IsSpan(text, f, sp) ensures ReplacementSpan(text, f) == Some(sp) {
        FindIsFirst(text, f.Declaration, 0, sp.Decl);
        FindIsFirst(text, "{", from, sp.Open);
        OccursAtChar(text, '{', open);
        MatchingCloseFirst(text, sp.Open, sp.Close);
      }
    } else {
      forall sp | IsSpan(text, f, sp) ensures false {
        FindIsFirst(text, f.Declaration, 0, sp.Decl);
      }
    }
  }

  /**
   * One replacement: the text from the `{` to its matching `}` becomes the
   * recorded body, and the recorded preamble is inserted where the
   * declaration starts.  Without a span the text is unchanged.
   */
  function Replaced(text: string, f: ModdedFunction): (r: string)
  {
    match ReplacementSpan(text, f)
    case None => text
    case Some(sp) => Insert(text[..sp.Open] + f.Body + text[sp.Close + 1..], sp.Decl, f.Preamble)
  }

  /**
   * The text after a replacement: the preamble before the declaration, the
   * declaration line kept, exactly [Open, Close] swapped for the body, and
   * everything else as it was.
   */
  lemma ReplacedLayout(text: string, f: ModdedFunction, sp: Span)
    requires ReplacementSpan(text, f) == Some(sp)
    ensures Replaced(text, f) == text[..sp.Decl] + f.Preamble + text[sp.Decl..sp.Open] + f.Body + text[sp.Close + 1..]
  {
    InsertBeforeSwap(text, sp.Decl, sp.Open, sp.Close, f.Body, f.Preamble);
  }

  /** Without a declaration, a `{` after it, or a matching `}`, the text is unchanged. */
  lemma ReplacedWithoutSpan(text: string, f: ModdedFunction)
    requires ReplacementSpan(text, f).None?
    ensures Replaced(text, f) == text
  {
  }

  lemma SamePiece(text: string, r: string, upto: nat, a: nat, b: nat)
    requires a <= b <= upto <= |r| && upto <= |text| && r[..upto] == text[..upto]
    ensures r[a..b] == text[a..b]
  {
    forall i | a <= i < b ensures r[i] == text[i] {
      assert r[i] == r[..upto][i];
      assert text[i] == text[..upto][i];
    }
  }

  /** Text that agrees with `text` up to a point keeps the first occurrences that end before it. */
  lemma FirstKept(text: string, r: string, pat: string, from: nat, p: nat, upto: nat)
    requires FirstAt(text, pat, from, p) && p + |pat| <= upto <= |r| && upto <= |text|
    requires r[..upto] == text[..upto]
    ensures FirstAt(r, pat, from, p)
  {
    var n := |pat|;
    SamePiece(text, r, upto, p, p + n);
    forall q | from <= q < p ensures !OccursAt(r, pat, q) {
      assert !OccursAt(text, pat, q);
      SamePiece(text, r, upto, q, q + n);
    }
  }

  lemma SpanFromParts(r: string, f: ModdedFunction, decl: nat, open: nat, close: nat)
    requires Find(r, f.Declaration, 0) == decl && Find(r, "{", decl + |f.Declaration|) == open
    requires open < |r| && r[open] == '{' && MatchingClose(r, open) == close
    ensures ReplacementSpan(r, f) == Some(Span(decl, open, close))
  {
  }

  /**
   * Once the block at a span has been swapped for a whole block, the merger
   * finds the same declaration and the same `{`, and matches the new block.
   */
  lemma SpanAfterSwap(text: string, f: ModdedFunction, sp: Span, r: string)
    requires IsSpan(text, f, sp) && BalancedBlock(f.Body)
    requires r == text[..sp.Open] + f.Body + text[sp.Close + 1..]
    ensures ReplacementSpan(r, f) == Some(Span(sp.Decl, sp.Open, sp.Open + |f.Body| - 1))
  {
    SwapKeepsFront(text, f.Body, sp.Open, sp.Close, r);
    SpanKept(text, f, sp, r);
  }

  /**
   * A text that agrees with `text` up to the `{` of a span, and has a whole
   * block starting there, has its span at the same declaration and `{`,
   * closing where that block ends.
   */
  lemma SpanKept(text: string, f: ModdedFunction, sp: Span, r: string)
    requires IsSpan(text, f, sp) && BalancedBlock(f.Body)
    requires sp.Open + |f.Body| <= |r| && r[..sp.Open + 1] == text[..sp.Open + 1]
    requires r[sp.Open..sp.Open + |f.Body|] == f.Body
    ensures ReplacementSpan(r, f) == Some(Span(sp.Decl, sp.Open, sp.Open + |f.Body| - 1))
  {
    FindKept(text, r, f.Declaration, 0, sp.Decl, sp.Open + 1);
    FindKept(text, r, "{", sp.Decl + |f.Declaration|, sp.Open, sp.Open + 1);
    MatchingCloseOfBlock(r, sp.Open, f.Body);
    SpanFromParts(r, f, sp.Decl, sp.Open, sp.Open + |f.Body| - 1);
  }

  /** Swapping [open, close] for a block that starts with the same `{` keeps the text up to the `{`. */
  lemma SwapKeepsFront(text: string, b: string, open: nat, close: nat, r: string)
    requires open <= close < |text| && text[open] == '{' && BalancedBlock(b)
    requires r == text[..open] + b + text[close + 1..]
    ensures open + |b| <= |r| && r[..open + 1] == text[..open + 1] && r[open..open + |b|] == b
  {
    assert r[..open] == text[..open];
    assert r[open] == b[0];
  }

  /** Text that agrees with `text` up to `upto` finds `pat` where `text` first has it. */
  lemma FindKept(text: string, r: string, pat: string, from: nat, p: nat, upto: nat)
    requires FirstAt(text, pat, from, p) && p + |pat| <= upto <= |r| && upto <= |text|
    requires r[..upto] == text[..upto]
    ensures Find(r, pat, from) == p
  {
    FirstKept(text, r, pat, from, p, upto);
    FindOfFirst(r, pat, from, p);
  }

  /**
   * A replacement without a preamble whose body is a whole block is
   * idempotent: applied to its own result it finds the same declaration,
   * the same `{`, and the inserted body as the matched block.
   */
  lemma ReplacedIdempotent(text: string, f: ModdedFunction)
    requires f.Preamble == [] && BalancedBlock(f.Body)
    ensures Replaced(Replaced(text, f), f) == Replaced(text, f)
  {
    if ReplacementSpan(text, f).Some? {
      var sp := ReplacementSpan(text, f).value;
      var b := f.Body;
      var r := text[..sp.Open] + b + text[sp.Close + 1..];
      InsertNothing(r, sp.Decl);
      assert Replaced(text, f) == r;
      ReplacementSpanIsSpan(text, f);
      SpanAfterSwap(text, f, sp, r);
      assert r[sp.Open..sp.Open + |b|] == b;
      CutTwice(r, sp.Open, sp.Open + |b|);
      assert Replaced(r, f) == Insert(r, sp.Decl, []);
    }
  }

  /** `{}` is a whole block. */
  lemma EmptyBlockBalanced()
    ensures BalancedBlock("{}")
  {
    assert Net("{") == 1 && Net("{}") == 0;
    assert "{}"[..1] == "{";
  }

  /** Replacing `f` in "f{}" with preamble "p" and body "{}" puts the preamble in front of the declaration. */
  lemma ReplacedFirstPass()
    ensures Replaced("f{}", ModdedFunction("p", "f", "{}")) == "pf{}"
  {
    var f := ModdedFunction("p", "f", "{}");
    EmptyBlockBalanced();
    FindOfFirst("f{}", "f", 0, 0);
    FindOfFirst("f{}", "{", 1, 1);
    MatchingCloseOfBlock("f{}", 1, "{}");
    SpanFromParts("f{}", f, 0, 1, 2);
    ReplacedLayout("f{}", f, Span(0, 1, 2));
  }

  /** The same replacement applied to "pf{}" finds `f` again and inserts the preamble a second time. */
  lemma ReplacedSecondPass()
    ensures Replaced("pf{}", ModdedFunction("p", "f", "{}")) == "ppf{}"
  {
    var f := ModdedFunction("p", "f", "{}");
    EmptyBlockBalanced();
    assert "pf{}"[0..1] == ['p'] != "f";
    FindOfFirst("pf{}", "f", 0, 1);
    FindOfFirst("pf{}", "{", 2, 2);
    MatchingCloseOfBlock("pf{}", 2, "{}");
    SpanFromParts("pf{}", f, 1, 2, 3);
    ReplacedLayout("pf{}", f, Span(1, 2, 3));
  }

  /**
   * A replacement with a preamble is not idempotent: merging the same
   * overlay into an already merged shader inserts its preamble again.
   */
  lemma ReplacementRepeatsPreamble()
    ensures Replaced("f{}", ModdedFunction("p", "f", "{}")) == "pf{}"
    ensures Replaced(Replaced("f{}", ModdedFunction("p", "f", "{}")), ModdedFunction("p", "f", "{}")) == "ppf{}"
  {
    ReplacedFirstPass();
    ReplacedSecondPass();
  }

  /** Every replacement applied in turn, in the order they were recorded. */
  function ReplacedAll(text: string, modded: seq<ModdedFunction>): (r: string)
  {
    if modded == [] then text
    else Replaced(ReplacedAll(text, modded[..|modded| - 1]), modded[|modded| - 1])
  }

  /** The span, found step by step as the merger does. */
  method LocateSpan(text: string, f: ModdedFunction) returns (span: Option<Span>)
    ensures span == ReplacementSpan(text, f)
  {
    span := None;
    var decl := Find(text, f.Declaration, 0);
    if decl < 0 {
      return;
    }
    var open := Find(text, "{", decl + |f.Declaration|);
    if open < 0 {
      return;
    }
    OccursAtChar(text, '{', open);
    var close := FindClosingBrace(text, open);
    if close < 0 {
      return;
    }
    span := Some(Span(decl, open, close));
  }

  /** The replacement splice of one function, as the merger performs it. */
  method ReplaceFunction(text: string, f: ModdedFunction) returns (r: string)
    ensures r == Replaced(text, f)
  {
    var span := LocateSpan(text, f);
    match span
    case None =>
      r := text;
    case Some(sp) =>
      r := text[..sp.Open] + f.Body + text[sp.Close + 1..];
      r := Insert(r, sp.Decl, f.Preamble);
  }

  /** Applies every replacement to the text in turn. */
  method SpliceReplacements(text: string, modded: seq<ModdedFunction>) returns (r: string)
    ensures r == ReplacedAll(text, modded)
  {
    r := text;
    for i := 0 to |modded|
      invariant r == ReplacedAll(text, modded[..i])
    {
      assert modded[..i + 1][..i] == modded[..i];
      r := ReplaceFunction(r, modded[i]);
    }
    assert modded[..|modded|] == modded;
  }

  // ---------------------------------------------------------------------
  // Extensions
  // ---------------------------------------------------------------------

  /** Where an extension lands: the function's name, the `{` after it, and the newline before it. */
  datatype Site = Site(NamePos: nat, Open: nat, Newline: nat)

  /**
   * The site of an extension of `name`, found as the merger finds it: the
   * first occurrence of the name, the first `{` after it, which must have a
   * matching `}`, and the last newline at or before the name, which must be
   * followed somewhere by a space.
   */
  function ExtensionSite(text: string, name: string): (r: Option<Site>)
    ensures r.Some? ==> r.value.Newline <= r.value.NamePos <= r.value.Open < |text|
  {
    var namePos := Find(text, name, 0);
    if namePos < 0 then None
    else
      var open := Find(text, "{", namePos + |name|);
      if open < 0 then None
      else
        OccursAtChar(text, '{', open);
        if MatchingClose(text, open) < 0 then None
        else
          var newline := RFind(text, '\n', namePos);
          if newline < 0 || Find(text, " ", newline) < 0 then None
          else Some(Site(namePos, open, newline))
  }

  /** What a found site is: first name, first brace after it with a match, last newline before the name. */
  lemma ExtensionSiteFound(text: string, name: string)
    ensures ExtensionSite(text, name).Some? ==>
      var site := ExtensionSite(text, name).value;
      FirstAt(text, name, 0, site.NamePos) &&
      FirstAt(text, "{", site.NamePos + |name|, site.Open) && text[site.Open] == '{' &&
      MatchingClose(text, site.Open) >= 0 &&
      site.Newline <= site.NamePos && text[site.Newline] == '\n' &&
      (forall q :: site.Newline < q <= site.NamePos ==> text[q] != '\n')
  {
    var namePos := Find(text, name, 0);
    FindIsFirst(text, name, 0, namePos);
    if namePos >= 0 {
      var open := Find(text, "{", namePos + |name|);
      FindIsFirst(text, "{", namePos + |name|, open);
      if open >= 0 {
        OccursAtChar(text, '{', open);
      }
    }
  }

  /**
   * The return type: the text between the newline and the name, trimmed.
   * When the name does not lie after the newline the count wraps and the
   * text runs to the end.
   */
  function ReturnType(text: string, site: Site): (r: string)
    requires site.Newline < |text|
    ensures Contains(text, r)
    ensures r == [] || (!IsSpace(r[0]) && !IsSpace(r[|r| - 1]))
    ensures var stop := if site.Newline < site.NamePos < |text| then site.NamePos else |text|;
      Contains(text[site.Newline + 1..stop], r) &&
      (r == [] <==> forall i :: site.Newline + 1 <= i < stop ==> IsSpace(text[i]))
  {
    var t := SubstrTo(text, site.Newline + 1, site.NamePos);
    var stop := if site.Newline < site.NamePos < |text| then site.NamePos else |text|;
    assert t == text[site.Newline + 1..stop];
    assert (forall i :: 0 <= i < |t| ==> IsSpace(t[i])) <==>
      (forall i :: site.Newline + 1 <= i < stop ==> IsSpace(text[i])) by {
      forall i | site.Newline + 1 <= i < stop ensures text[i] == t[i - site.Newline - 1] { }
    }
    ContainsTrans(text, t, Trim(t));
    Trim(t)
  }

  /** The argument a parameter contributes: its last space-separated word and ", ", or nothing. */
  function Argument(param: string): string {
    var words := Split(param, ' ');
    if words == [] then "" else words[|words| - 1] + ", "
  }

  /** A parameter with a word gives its last word, which holds no space, followed by ", ". */
  lemma ArgumentShape(param: string)
    ensures var r := Argument(param);
      (r == [] <==> Split(param, ' ') == []) &&
      (r != [] ==> |r| >= 3 && r[|r| - 2..] == ", " && ' ' !in r[..|r| - 2])
  {
    var words := Split(param, ' ');
    if words != [] {
      var w := words[|words| - 1];
      assert w in words;
      assert (w + ", ")[..|w|] == w;
    }
  }

  /** The arguments of all parameters, in order. */
  function Arguments(params: seq<string>): string {
    if params == [] then "" else Arguments(params[..|params| - 1]) + Argument(params[|params| - 1])
  }

  /**
   * The parameter text of the function: from the first `(` after the name
   * up to the last `)` at or before the `{`.  None when either is missing.
   */
  function ParameterText(text: string, site: Site): (r: Option<string>)
    ensures r.None? <==> Find(text, "(", site.NamePos) < 0 || RFind(text, ')', site.Open) < 0
    ensures r.Some? ==>
      var open, close := Find(text, "(", site.NamePos), RFind(text, ')', site.Open);
      OccursAt(text, r.value, open) && r.value != [] && r.value[0] == '(' &&
      |r.value| == (if open < close then close - open else |text| - open)
  {
    var openParen := Find(text, "(", site.NamePos);
    if openParen < 0 then None
    else
      var closeParen := RFind(text, ')', site.Open);
      if closeParen < 0 then None else Some(SubstrTo(text, openParen, closeParen))
  }

  /** The argument list the calls pass on, each argument followed by ", ". */
  function ArgumentList(text: string, site: Site): string {
    match ParameterText(text, site)
    case None => ""
    case Some(params) => Arguments(Split(params, ','))
  }

  /** The name under which extension i is defined. */
  function ExtName(name: string, i: nat): string {
    name + "_ext" + NatToString(i)
  }

  /** Different extensions of a function are defined under different names. */
  lemma ExtNamesDistinct(name: string, i: nat, j: nat)
    ensures ExtName(name, i) == ExtName(name, j) <==> i == j
  {
    var k := |name| + 4;
    assert ExtName(name, i)[k..] == NatToString(i);
    assert ExtName(name, j)[k..] == NatToString(j);
    NatToStringInjective(i, j);
  }

  /** The text around the declaration of the local that carries the result. */
  const LocalHead: string := "\n\t"
  const LocalTail: string := " return_value;"

  /** The text around each call: the `if` in front, the last argument and the early return behind. */
  const CallHead: string := "\n\tif ("
  const CallTail: string := "return_value))\n\t\treturn return_value;"

  /** The call of extension i, which returns early when the extension reports success. */
  function CallLine(name: string, args: string, i: nat): string {
    CallHead + ExtName(name, i) + "(" + args + CallTail
  }

  /** The code inserted after the `{`: the local, then the calls of extensions 0 to n - 1 in that order. */
  function ExtensionCode(returnType: string, name: string, args: string, n: nat): string {
    if n == 0 then LocalHead + returnType + LocalTail
    else ExtensionCode(returnType, name, args, n - 1) + CallLine(name, args, n - 1)
  }

  /** Every extension's line names the extended function. */
  predicate Renamable(ef: ExtendedFunction) {
    forall f :: f in ef.Extensions ==> Contains(f.Declaration, ef.FunctionName)
  }

  /** The declaration with its first occurrence of `name` replaced by the extension's own name. */
  function Renamed(decl: string, name: string, i: nat): string {
    ReplaceFirst(decl, name, ExtName(name, i), 0)
  }

  /**
   * The renamed declaration keeps everything around the first occurrence of
   * the name, and the extension's name starts with the function's name and
   * is longer than it.
   */
  lemma RenamedFacts(decl: string, name: string, i: nat)
    requires Contains(decl, name)
    ensures var p := Find(decl, name, 0);
      0 <= p && p + |name| <= |decl| &&
      var r := Renamed(decl, name, i);
      |r| == |decl| - |name| + |ExtName(name, i)| &&
      r[..p] == decl[..p] && OccursAt(r, ExtName(name, i), p) && r[p + |ExtName(name, i)|..] == decl[p + |name|..]
    ensures |ExtName(name, i)| > |name| + 4 && ExtName(name, i)[..|name|] == name
  {
    FindFindsFactor(decl, name);
    var p := Find(decl, name, 0);
    var e := ExtName(name, i);
    var r := Renamed(decl, name, i);
    ReplaceFirstAtFind(decl, name, e, 0);
    assert r == decl[..p] + e + decl[p + |name|..];
    assert r[p..p + |e|] == e;
    assert e[..|name|] == name;
  }

  /** The definition of extension i: its renamed line, a space, its block, then its preamble. */
  function Definition(ef: ExtendedFunction, i: nat): string
    requires i < |ef.Extensions|
  {
    var f := ef.Extensions[i];
    Renamed(f.Declaration, ef.FunctionName, i) + " " + f.Body + f.Preamble
  }

  /** The definitions of extensions 0 to n - 1, each placed in front of the ones before it. */
  function Definitions(ef: ExtendedFunction, n: nat): string
    requires n <= |ef.Extensions|
  {
    if n == 0 then "" else Definition(ef, n - 1) + Definitions(ef, n - 1)
  }

  /** The code an extension splice puts after the `{` at a site. */
  function SiteCode(text: string, ef: ExtendedFunction, site: Site): string
    requires site.Newline < |text|
  {
    ExtensionCode(ReturnType(text, site), ef.FunctionName, ArgumentList(text, site), |ef.Extensions|)
  }

  /** The splice at a found site: the code after the `{`, then the definitions at the newline. */
  function SpliceAt(text: string, site: Site, code: string, defs: string): string
    requires site.Newline <= site.Open < |text|
  {
    Insert(Insert(text, site.Open + 1, code), site.Newline, defs)
  }

  /** One extension splice; without a site the text is unchanged. */
  function Extended(text: string, ef: ExtendedFunction): string
    requires Renamable(ef)
  {
    match ExtensionSite(text, ef.FunctionName)
    case None => text
    case Some(site) => SpliceAt(text, site, SiteCode(text, ef, site), Definitions(ef, |ef.Extensions|))
  }

  /**
   * The text after a splice at a site: the definitions in front of the
   * newline before the name, then the original text up to and including
   * the `{`, then the code, then the rest of the original text.
   */
  lemma ExtendedLayout(text: string, site: Site, code: string, defs: string)
    requires site.Newline <= site.Open < |text|
    ensures SpliceAt(text, site, code, defs) ==
      text[..site.Newline] + defs + text[site.Newline..site.Open + 1] + code + text[site.Open + 1..]
  {
    InsertInFront(text, site.Open + 1, code, site.Newline, defs);
  }

  /** An extension splice changes the text exactly when the function's site is found. */
  lemma ExtendedChangesIffSite(text: string, ef: ExtendedFunction)
    requires Renamable(ef)
    ensures Extended(text, ef) == text <==> ExtensionSite(text, ef.FunctionName).None?
  {
    match ExtensionSite(text, ef.FunctionName)
    case None =>
    case Some(site) =>
      CodePrefix(ReturnType(text, site), ef.FunctionName, ArgumentList(text, site), 0, |ef.Extensions|);
      assert |LocalHead| == 2;
      assert |SpliceAt(text, site, SiteCode(text, ef, site), Definitions(ef, |ef.Extensions|))| >= |text| + |SiteCode(text, ef, site)|;
  }

  /** The code for the first i extensions is a prefix of the code for n. */
  lemma {:induction false} CodePrefix(returnType: string, name: string, args: string, i: nat, n: nat)
    requires i <= n
    ensures ExtensionCode(returnType, name, args, i) <= ExtensionCode(returnType, name, args, n)
    decreases n
  {
    if i < n {
      CodePrefix(returnType, name, args, i, n - 1);
      PrefixExtend(ExtensionCode(returnType, name, args, i), ExtensionCode(returnType, name, args, n - 1), CallLine(name, args, n - 1));
    }
  }

  /** The call of extension i sits right after the local and the calls of extensions 0 to i - 1. */
  lemma CallLineInOrder(returnType: string, name: string, args: string, i: nat, n: nat)
    requires i < n
    ensures OccursAt(ExtensionCode(returnType, name, args, n), CallLine(name, args, i), |ExtensionCode(returnType, name, args, i)|)
  {
    CodePrefix(returnType, name, args, i + 1, n);
    PrefixOccurs(ExtensionCode(returnType, name, args, n), ExtensionCode(returnType, name, args, i), CallLine(name, args, i));
  }

  /** Where the definition of extension i sits among the definitions of n. */
  function DefinitionOffset(ef: ExtendedFunction, i: nat, n: nat): int
    requires i < n <= |ef.Extensions|
  {
    |Definitions(ef, n)| - |Definitions(ef, i + 1)|
  }

  lemma DefinitionsStep(ef: ExtendedFunction, i: nat)
    requires i < |ef.Extensions|
    ensures Definitions(ef, i + 1) == Definition(ef, i) + Definitions(ef, i)
  {
  }

  /** The definition of extension i sits whole at its offset among the definitions of n. */
  lemma {:induction false} DefinitionAt(ef: ExtendedFunction, i: nat, n: nat)
    requires i < n <= |ef.Extensions|
    ensures OccursAt(Definitions(ef, n), Definition(ef, i), DefinitionOffset(ef, i, n))
    decreases n
  {
    DefinitionsStep(ef, n - 1);
    if n == i + 1 {
      OccursInFront(Definitions(ef, n), 0, Definition(ef, i), Definitions(ef, i));
    } else {
      DefinitionAt(ef, i, n - 1);
      OccursBehind(Definition(ef, n - 1), Definitions(ef, n - 1), Definition(ef, i), DefinitionOffset(ef, i, n - 1));
    }
  }

  /** Later extensions are defined in front of earlier ones: definition j > i ends before definition i begins. */
  lemma DefinitionsLaterFirst(ef: ExtendedFunction, i: nat, j: nat, n: nat)
    requires i < j < n <= |ef.Extensions|
    ensures DefinitionOffset(ef, j, n) + |Definition(ef, j)| <= DefinitionOffset(ef, i, n)
  {
    DefinitionsStep(ef, j);
    DefinitionsGrow(ef, i + 1, j);
  }

  lemma {:induction false} DefinitionsGrow(ef: ExtendedFunction, i: nat, n: nat)
    requires i <= n <= |ef.Extensions|
    ensures |Definitions(ef, i)| <= |Definitions(ef, n)|
    decreases n
  {
    if i < n {
      DefinitionsGrow(ef, i, n - 1);
      DefinitionsStep(ef, n - 1);
    }
  }

  /** The site, found step by step as the merger does. */
  method LocateSite(text: string, name: string) returns (site: Option<Site>)
    ensures site == ExtensionSite(text, name)
  {
    site := None;
    var namePos := Find(text, name, 0);
    if namePos < 0 {
      return;
    }
    var open := Find(text, "{", namePos + |name|);
    if open < 0 {
      return;
    }
    OccursAtChar(text, '{', open);
    var close := FindClosingBrace(text, open);
    if close < 0 {
      return;
    }
    var newline := RFind(text, '\n', namePos);
    if newline < 0 || Find(text, " ", newline) < 0 {
      return;
    }
    site := Some(Site(namePos, open, newline));
  }

  /** The arguments of the parameters, built one parameter at a time. */
  method JoinArguments(params: seq<string>) returns (args: string)
    ensures args == Arguments(params)
  {
    args := "";
    for k := 0 to |params|
      invariant args == Arguments(params[..k])
    {
      assert params[..k + 1][..k] == params[..k];
      var words := Split(params[k], ' ');
      if words != [] {
        Regroup(args, words[|words| - 1], ", ");
        args := args + words[|words| - 1];
        args := args + ", ";
      }
    }
    assert params[..|params|] == params;
  }

  /** The argument list, found as the merger finds it. */
  method BuildArgumentList(text: string, site: Site) returns (args: string)
    ensures args == ArgumentList(text, site)
  {
    args := "";
    var openParen := Find(text, "(", site.NamePos);
    if openParen >= 0 {
      var closeParen := RFind(text, ')', site.Open);
      if closeParen >= 0 {
        args := JoinArguments(Split(SubstrTo(text, openParen, closeParen), ','));
      }
    }
  }

  /** The local and the calls, appended one extension at a time. */
  method BuildCode(returnType: string, name: string, args: string, n: nat) returns (code: string)
    ensures code == ExtensionCode(returnType, name, args, n)
  {
    code := LocalHead + returnType + LocalTail;
    for i := 0 to n
      invariant code == ExtensionCode(returnType, name, args, i)
    {
      code := code + CallLine(name, args, i);
    }
  }

  /** The definitions, each inserted at the newline in front of the ones before it. */
  method InsertDefinitions(text: string, ef: ExtendedFunction, newline: nat) returns (r: string)
    requires newline <= |text|
    ensures r == Insert(text, newline, Definitions(ef, |ef.Extensions|))
  {
    r := text;
    InsertNothing(text, newline);
    for i := 0 to |ef.Extensions|
      invariant r == Insert(text, newline, Definitions(ef, i))
    {
      var f := ef.Extensions[i];
      assert f in ef.Extensions;
      var line := Renamed(f.Declaration, ef.FunctionName, i) + " " + f.Body;
      InsertTwice(text, newline, Definitions(ef, i), f.Preamble);
      r := Insert(r, newline, f.Preamble);
      InsertTwice(text, newline, f.Preamble + Definitions(ef, i), line);
      r := Insert(r, newline, line);
      Regroup(line, f.Preamble, Definitions(ef, i));
    }
  }

  /** The splice at a found site, as the merger performs it. */
  method SpliceSite(text: string, ef: ExtendedFunction, site: Site) returns (r: string)
    requires site.Newline <= site.Open < |text|
    ensures r == SpliceAt(text, site, SiteCode(text, ef, site), Definitions(ef, |ef.Extensions|))
  {
    var returnType := ReturnType(text, site);
    var args := BuildArgumentList(text, site);
    var code := BuildCode(returnType, ef.FunctionName, args, |ef.Extensions|);
    assert code == SiteCode(text, ef, site);
    var withCode := Insert(text, site.Open + 1, code);
    r := InsertDefinitions(withCode, ef, site.Newline);
    SpliceAtIsInserts(text, site, code, Definitions(ef, |ef.Extensions|), withCode, r);
  }

  /** The two inserts, in this order, are the splice at the site. */
  lemma SpliceAtIsInserts(text: string, site: Site, code: string, defs: string, withCode: string, r: string)
    requires site.Newline <= site.Open < |text|
    requires withCode == Insert(text, site.Open + 1, code) && r == Insert(withCode, site.Newline, defs)
    ensures r == SpliceAt(text, site, code, defs)
  {
  }

  /** The extension splice of one function, as the merger performs it. */
  method ExtendFunction(text: string, ef: ExtendedFunction) returns (r: string)
    requires Renamable(ef)
    ensures r == Extended(text, ef)
  {
    var found := LocateSite(text, ef.FunctionName);
    match found
    case None =>
      r := text;
    case Some(site) =>
      r := SpliceSite(text, ef, site);
  }

  /** Every extension entry applied in turn, in the order the entries were made. */
  function ExtendedAll(text: string, extended: seq<ExtendedFunction>): string
    requires forall ef :: ef in extended ==> Renamable(ef)
  {
    if extended == [] then text
    else Extended(ExtendedAll(text, extended[..|extended| - 1]), extended[|extended| - 1])
  }

  /** Applies every extension entry to the text in turn. */
  method SpliceExtensions(text: string, extended: seq<ExtendedFunction>) returns (r: string)
    requires forall ef :: ef in extended ==> Renamable(ef)
    ensures r == ExtendedAll(text, extended)
  {
    r := text;
    for i := 0 to |extended|
      invariant r == ExtendedAll(text, extended[..i])
    {
      assert extended[..i + 1][..i] == extended[..i];
      r := ExtendFunction(r, extended[i]);
    }
    assert extended[..|extended|] == extended;
  }

  // ---------------------------------------------------------------------
  // The merger
  // ---------------------------------------------------------------------

  /** A recorded extension's line holds its function's name, so renaming it cannot fail. */
  lemma ValidExtensionsRenamable(extended: seq<ExtendedFunction>)
    requires ExtendedValid(extended)
    ensures forall ef :: ef in extended ==> Renamable(ef)
  {
    forall ef, f | ef in extended && f in ef.Extensions ensures Contains(f.Declaration, ef.FunctionName) {
      assert ExtensionsValid(ef);
      assert ExtensionValid(ef.FunctionName, f);
    }
  }

  /**
   * The merger without its file I/O: None for an empty original shader;
   * otherwise the original with the replacements recorded from the
   * overlays spliced in, then the extensions.
   */
  method Merge(original: string, overlays: seq<string>) returns (r: Option<string>)
    ensures r.None? <==> original == []
    ensures original != [] && NoBlocks(overlays) ==> r == Some(original)
    ensures r.Some? ==>
      var s := ScanAll(original, overlays);
      RecordsValid(original, s.Modded, s.Extended) && AllFromOverlays(s.Modded, s.Extended, overlays) &&
      (forall ef :: ef in s.Extended ==> Renamable(ef)) &&
      r.value == ExtendedAll(ReplacedAll(original, s.Modded), s.Extended)
  {
    if original == [] {
      return None;
    }
    var modded, extended := ScanOverlays(original, overlays);
    ValidExtensionsRenamable(extended);
    var text := SpliceReplacements(original, modded);
    text := SpliceExtensions(text, extended);
    r := Some(text);
  }

  /** The overlay "a{}" has no comments, and the scan reads all of it. */
  lemma PrivateOverlayText()
    ensures Decomment("a{}") == "a{}" && StopIndex("a{}", 0, 0) == 3 && Reached("a{}") == "a{}"
  {
    NoSlashNoComment("a{}", 0);
    assert "a{}"[0..] == "a{}";
    assert StopIndex("a{}", 2, 1) == 3;
    assert "a{}"[..3] == "a{}";
  }

  /** After "a{" the scanner is inside a block whose line "a" names nothing in the original "x". */
  lemma PrivateBlockJoinsPreamble()
    ensures Run("x", "a{}", 2, ScanState(Scanner("", "", "", false, 0), [], [])) ==
      ScanState(Scanner("", "a", "{", false, 1), [], [])
    ensures Classify("x", "a", false, []) == JoinsPreamble
  {
    assert "x"[0..1] == ['x'] != "a";
    assert !Contains("x", "a");
  }

  /**
   * A block an overlay defines for its own use, under a name the original
   * does not have, only joins the preamble of a later block; when no block
   * follows, it is dropped, and the merged shader is the original.
   */
  lemma PrivateBlockDropped()
    ensures !NoBlocks(["a{}"])
    ensures ScanAll("x", ["a{}"]).Modded == [] && ScanAll("x", ["a{}"]).Extended == []
    ensures ExtendedAll(ReplacedAll("x", ScanAll("x", ["a{}"]).Modded), ScanAll("x", ["a{}"]).Extended) == "x"
  {
    PrivateOverlayText();
    PrivateBlockJoinsPreamble();
    var st0 := ScanState(Scanner("", "", "", false, 0), [], []);
    var st2 := ScanState(Scanner("", "a", "{", false, 1), [], []);
    var st3 := Closed("x", st2);
    assert st3.Modded == [] && st3.Extended == [];
    assert Run("x", "a{}", 3, st0) == st3;
    assert OverlayScan("x", "a{}", [], []) == st3;
    assert ["a{}"][..0] == [];
    assert ScanAll("x", ["a{}"]) == st3;
    assert ["a{}"][0] == "a{}" && "a{}"[2] == '}';
  }
}
