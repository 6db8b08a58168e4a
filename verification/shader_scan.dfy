/**
 * The overlay tokenizer of the shader merger.  Each overlay file is read
 * one character at a time; comments are skipped, top-level `{...}` blocks
 * are cut out together with the line that precedes them, and each block is
 * filed as preamble text, as a replacement for a function of the original
 * shader, or as an extension of one (when the line before it was exactly
 * `#extends`).
 */
module ShaderScan {
  import opened Wrappers
  import opened Text

  /** A block cut out of an overlay: the text pending before it, its line, its braces. */
  datatype ModdedFunction = ModdedFunction(Preamble: string, Declaration: string, Body: string)

  /** The extensions filed under one function name, in the order they were read. */
  datatype ExtendedFunction = ExtendedFunction(FunctionName: string, Extensions: seq<ModdedFunction>)

  datatype CommentState = NoComment | SingleLine | MultiLine

  // ---------------------------------------------------------------------
  // Comments
  // ---------------------------------------------------------------------

  // The characters of s[i..] that lie outside comments when reading starts
  // in comment state `st`.  A line comment runs up to and including the next
  // newline; a block comment runs up to and including the next star-slash.
  function Visible(s: string, i: nat, st: CommentState): (r: string)
    ensures |r| <= if i <= |s| then |s| - i else 0
    decreases |s| - i
  {
    if i >= |s| then []
    else match st
      case NoComment =>
        if s[i] == '/' && i + 1 < |s| && s[i + 1] == '/' then Visible(s, i + 2, SingleLine)
        else if s[i] == '/' && i + 1 < |s| && s[i + 1] == '*' then Visible(s, i + 2, MultiLine)
        else [s[i]] + Visible(s, i + 1, NoComment)
      case SingleLine => Visible(s, i + 1, if s[i] == '\n' then NoComment else SingleLine)
      case MultiLine =>
        if s[i] == '*' && i + 1 < |s| && s[i + 1] == '/' then Visible(s, i + 2, NoComment)
        else Visible(s, i + 1, MultiLine)
  }

  /** An overlay with its comments removed. */
  function Decomment(s: string): (r: string)
    ensures |r| <= |s|
  {
    Visible(s, 0, NoComment)
  }

  /** Text without a slash has no comment to remove. */
  lemma {:induction false} NoSlashNoComment(s: string, i: nat)
    requires i <= |s|
    requires forall k :: i <= k < |s| ==> s[k] != '/'
    ensures Visible(s, i, NoComment) == s[i..]
    decreases |s| - i
  {
    if i < |s| {
      NoSlashNoComment(s, i + 1);
      assert s[i..] == [s[i]] + s[i + 1..];
    }
  }

  /** Inside a `//` comment, everything up to and including the newline is dropped. */
  lemma {:induction false} LineCommentTail(s: string, k: nat, j: nat)
    requires k <= j < |s| && s[j] == '\n'
    requires forall q :: k <= q < j ==> s[q] != '\n'
    ensures Visible(s, k, SingleLine) == Visible(s, j + 1, NoComment)
    decreases j - k
  {
    if k < j {
      LineCommentTail(s, k + 1, j);
    }
  }

  /** A `//` comment vanishes together with the newline that ends it. */
  lemma LineCommentSwallowsNewline(s: string, i: nat, j: nat)
    requires i + 2 <= j < |s| && s[i] == '/' && s[i + 1] == '/' && s[j] == '\n'
    requires forall q :: i + 2 <= q < j ==> s[q] != '\n'
    ensures Visible(s, i, NoComment) == Visible(s, j + 1, NoComment)
  {
    LineCommentTail(s, i + 2, j);
  }

  // Inside a block comment, everything up to and including the first star-slash is dropped.
  lemma {:induction false} BlockCommentTail(s: string, k: nat, j: nat)
    requires k <= j && j + 1 < |s| && s[j] == '*' && s[j + 1] == '/'
    requires forall q :: k <= q < j ==> !(s[q] == '*' && s[q + 1] == '/')
    ensures Visible(s, k, MultiLine) == Visible(s, j + 2, NoComment)
    decreases j - k
  {
    if k < j {
      BlockCommentTail(s, k + 1, j);
    }
  }

  // A block comment vanishes entirely; it ends at the first star-slash after its opener.
  lemma BlockCommentDropped(s: string, i: nat, j: nat)
    requires i + 2 <= j && j + 1 < |s| && s[i] == '/' && s[i + 1] == '*' && s[j] == '*' && s[j + 1] == '/'
    requires forall q :: i + 2 <= q < j ==> !(s[q] == '*' && s[q + 1] == '/')
    ensures Visible(s, i, NoComment) == Visible(s, j + 2, NoComment)
  {
    BlockCommentTail(s, i + 2, j);
  }

  // ---------------------------------------------------------------------
  // Brace depth
  // ---------------------------------------------------------------------

  function Delta(c: char): int {
    if c == '{' then 1 else if c == '}' then -1 else 0
  }

  /** The number of `{` minus the number of `}` in `s`. */
  function Net(s: string): int {
    if s == [] then 0 else Delta(s[0]) + Net(s[1..])
  }

  lemma {:induction false} NetConcat(a: string, b: string)
    ensures Net(a + b) == Net(a) + Net(b)
    decreases |a|
  {
    if a != [] {
      assert (a + b)[0] == a[0] && (a + b)[1..] == a[1..] + b;
      NetConcat(a[1..], b);
    } else {
      assert a + b == b;
    }
  }

  lemma NetAppend(a: string, c: char)
    ensures Net(a + [c]) == Net(a) + Delta(c)
  {
    NetConcat(a, [c]);
  }

  /** An open block at depth `depth`: starts with `{` and no prefix has closed it. */
  predicate OpenBlock(b: string, depth: nat) {
    |b| >= 1 && b[0] == '{' && Net(b) == depth && forall k :: 1 <= k <= |b| ==> Net(b[..k]) >= 1
  }

  lemma OpenBlockStart()
    ensures OpenBlock("{", 1)
  {
    assert "{"[..1] == "{";
  }

  /** A character that leaves the depth at 1 or more keeps a block open. */
  lemma OpenBlockGrow(b: string, depth: nat, c: char)
    requires OpenBlock(b, depth) && depth + Delta(c) >= 1
    ensures OpenBlock(b + [c], depth + Delta(c))
  {
    NetAppend(b, c);
    forall k | 1 <= k <= |b| + 1 ensures Net((b + [c])[..k]) >= 1 {
      if k <= |b| {
        assert (b + [c])[..k] == b[..k];
      } else {
        assert (b + [c])[..k] == b + [c];
      }
    }
  }

  /** A whole block: starts with `{`, ends with the `}` that closes it, and nothing closes it earlier. */
  predicate BalancedBlock(b: string) {
    |b| >= 2 && b[0] == '{' && b[|b| - 1] == '}' && Net(b) == 0 &&
    forall k :: 1 <= k < |b| ==> Net(b[..k]) >= 1
  }

  /**
   * Reading comment-free text `d` from index j at scope depth `depth`, the
   * index of the `}` met at depth 0, which ends the scan; |d| when there is
   * none.
   */
  function StopIndex(d: string, j: nat, depth: nat): (r: nat)
    requires j <= |d|
    ensures j <= r <= |d|
    ensures r < |d| ==> d[r] == '}'
    decreases |d| - j
  {
    if j == |d| then |d|
    else if d[j] == '{' then StopIndex(d, j + 1, depth + 1)
    else if d[j] == '}' then (if depth == 0 then j else StopIndex(d, j + 1, depth - 1))
    else StopIndex(d, j + 1, depth)
  }

  /**
   * The stop is where the running depth first drops below zero: up to it
   * the depth never goes negative, and the `}` found there would take it
   * to -1.
   */
  lemma {:induction false} StopIndexIsStrayBrace(d: string, j: nat, depth: nat)
    requires j <= |d|
    ensures var r := StopIndex(d, j, depth);
      (r < |d| ==> depth + Net(d[j..r]) == 0) &&
      forall k :: j <= k <= r ==> depth + Net(d[j..k]) >= 0
    decreases |d| - j
  {
    var r := StopIndex(d, j, depth);
    if j < |d| && !(d[j] == '}' && depth == 0) {
      var depth' := depth + Delta(d[j]);
      StopIndexIsStrayBrace(d, j + 1, depth');
      forall k | j + 1 <= k <= |d|
        ensures Net(d[j..k]) == Delta(d[j]) + Net(d[j + 1..k])
      {
        assert d[j..k][1..] == d[j + 1..k];
      }
    }
  }

  /** One character that does not stop the scan moves the depth by its Delta. */
  lemma StopIndexStep(d: string, j: nat, depth: nat)
    requires j < |d| && !(d[j] == '}' && depth == 0)
    ensures depth + Delta(d[j]) >= 0 && j < StopIndex(d, j, depth)
    ensures StopIndex(d, j, depth) == StopIndex(d, j + 1, depth + Delta(d[j]))
  {
  }

  /** What a scan of `overlay` reads: its comment-free text up to the stray `}`, if any. */
  function Reached(overlay: string): (r: string)
    ensures |r| <= |overlay|
  {
    var d := Decomment(overlay);
    d[..StopIndex(d, 0, 0)]
  }

  // ---------------------------------------------------------------------
  // Classification and records
  // ---------------------------------------------------------------------

  /** The line of a block declares a struct: once trimmed, it starts with "struct". */
  predicate IsStructDecl(line: string) {
    var t := Trim(line);
    |t| >= 6 && t[..6] == "struct"
  }

  /** The test as the merger writes it, find("struct") == 0 on the trimmed line, is the same. */
  lemma StructTestIsFindAtZero(line: string)
    ensures IsStructDecl(line) <==> Find(Trim(line), "struct", 0) == 0
  {
  }

  /**
   * The function an `#extends` block extends: the trimmed text between the
   * first space and the first parenthesis of its line; none when the line
   * lacks either.
   */
  function ExtensionName(line: string): (r: Option<string>)
    ensures r.None? <==> Find(line, " ", 0) < 0 || Find(line, "(", 0) < 0
    ensures r.Some? ==> Contains(line, r.value)
  {
    var space := Find(line, " ", 0);
    var paren := Find(line, "(", 0);
    if space < 0 || paren < 0 then None
    else
      var name := Trim(SubstrTo(line, space, paren));
      ContainsTrans(line, SubstrTo(line, space, paren), name);
      Some(name)
  }

  /**
   * The name read back: a line made of a first word, a space, a name free of
   * spaces and parentheses with no whitespace at either end, and a
   * parenthesis gives that name.
   */
  lemma ExtensionNameOf(t: string, n: string, rest: string)
    requires ' ' !in t && '(' !in t
    requires n != [] && ' ' !in n && '(' !in n && !IsSpace(n[0]) && !IsSpace(n[|n| - 1])
    ensures ExtensionName(t + " " + n + "(" + rest) == Some(n)
  {
    var line := t + " " + n + "(" + rest;
    var space, paren := |t|, |t| + 1 + |n|;
    assert OccursAt(line, " ", space);
    forall q | 0 <= q < space ensures !OccursAt(line, " ", q) {
      assert line[q] == t[q];
    }
    FindOfFirst(line, " ", 0, space);
    assert OccursAt(line, "(", paren);
    forall q | 0 <= q < paren ensures !OccursAt(line, "(", q) {
      if q < |t| {
        assert line[q] == t[q];
      } else if q > |t| {
        assert line[q] == n[q - |t| - 1];
      }
    }
    FindOfFirst(line, "(", 0, paren);
    var piece := SubstrTo(line, space, paren);
    assert piece == [' '] + n;
    assert TrimLeft(piece) == TrimLeft(n) by { assert piece[1..] == n; }
    assert TrimLeft(n) == n;
    assert TrimRight(n) == n;
  }

  /** A recorded replacement: a non-struct line found in the original shader, and a whole block. */
  predicate ReplacementValid(original: string, f: ModdedFunction) {
    Contains(original, f.Declaration) && !IsStructDecl(f.Declaration) && BalancedBlock(f.Body)
  }

  /** A recorded extension of `name`: a non-struct line naming `name`, and a whole block. */
  predicate ExtensionValid(name: string, f: ModdedFunction) {
    ExtensionName(f.Declaration) == Some(name) && !IsStructDecl(f.Declaration) && BalancedBlock(f.Body)
  }

  predicate ExtensionsValid(ef: ExtendedFunction) {
    |ef.Extensions| >= 1 && forall f :: f in ef.Extensions ==> ExtensionValid(ef.FunctionName, f)
  }

  predicate ModdedValid(original: string, modded: seq<ModdedFunction>) {
    forall f :: f in modded ==> ReplacementValid(original, f)
  }

  predicate DistinctDeclarations(modded: seq<ModdedFunction>) {
    forall i, j :: 0 <= i < j < |modded| ==> modded[i].Declaration != modded[j].Declaration
  }

  predicate ExtendedValid(extended: seq<ExtendedFunction>) {
    forall ef :: ef in extended ==> ExtensionsValid(ef)
  }

  predicate DistinctNames(extended: seq<ExtendedFunction>) {
    forall e, e' :: 0 <= e < e' < |extended| ==> extended[e].FunctionName != extended[e'].FunctionName
  }

  /**
   * What the recorded functions satisfy at every point of the scan:
   * replacements are valid and have distinct declarations; extension
   * entries are valid, non-empty and have distinct names.
   */
  predicate RecordsValid(original: string, modded: seq<ModdedFunction>, extended: seq<ExtendedFunction>) {
    ModdedValid(original, modded) && DistinctDeclarations(modded) && ExtendedValid(extended) && DistinctNames(extended)
  }

  /** A record cut out of `text`: its line followed by its block is a piece of `text`, and the line starts with a non-space. */
  predicate FromText(f: ModdedFunction, text: string) {
    Contains(text, f.Declaration + f.Body) && (f.Declaration == [] || !IsSpace(f.Declaration[0]))
  }

  /** algo::contains over the replacements, by declaration. */
  predicate DeclaredIn(modded: seq<ModdedFunction>, line: string) {
    exists i :: 0 <= i < |modded| && modded[i].Declaration == line
  }

  /** algo::find over the extension entries, by name: the first index, or |extended| when none. */
  function IndexOfName(extended: seq<ExtendedFunction>, name: string): (r: nat)
    ensures r <= |extended|
    ensures r < |extended| ==> extended[r].FunctionName == name
    ensures forall e :: 0 <= e < r ==> extended[e].FunctionName != name
  {
    if extended == [] then 0
    else if extended[0].FunctionName == name then 0
    else 1 + IndexOfName(extended[1..], name)
  }

  /** The number of extensions entry e held before, 0 for a new entry. */
  function OldCount(old0: seq<ExtendedFunction>, e: int): nat {
    if 0 <= e < |old0| then |old0[e].Extensions| else 0
  }

  /** Entries are only added at the end, keep their names and only gain extensions at the end. */
  predicate ExtendedGrows(old0: seq<ExtendedFunction>, new0: seq<ExtendedFunction>) {
    |old0| <= |new0| &&
    forall e :: 0 <= e < |old0| ==>
      new0[e].FunctionName == old0[e].FunctionName && old0[e].Extensions <= new0[e].Extensions
  }

  /** The entries grew from `old0`, and every extension filed since was cut out of `text`. */
  predicate NewExtensionsFrom(old0: seq<ExtendedFunction>, new0: seq<ExtendedFunction>, text: string) {
    ExtendedGrows(old0, new0) &&
    forall e :: 0 <= e < |new0| ==>
      forall f :: f in new0[e].Extensions[OldCount(old0, e)..] ==> FromText(f, text)
  }

  /**
   * Files extension `f` under `name`: appended to the first entry of that
   * name, or to a new entry at the end when there is none.
   */
  function FileExtension(extended: seq<ExtendedFunction>, name: string, f: ModdedFunction): (r: seq<ExtendedFunction>)
    ensures var i := IndexOfName(extended, name);
      |r| == (if i < |extended| then |extended| else |extended| + 1) &&
      r[i] == ExtendedFunction(name, (if i < |extended| then extended[i].Extensions else []) + [f]) &&
      forall e :: 0 <= e < |r| && e != i ==> r[e] == extended[e]
  {
    var i := IndexOfName(extended, name);
    if i < |extended| then extended[i := extended[i].(Extensions := extended[i].Extensions + [f])]
    else extended + [ExtendedFunction(name, [f])]
  }

  /** The line and the block of a record read from a prefix of `text` are a piece of `text`. */
  lemma PieceOfPrefix(text: string, read: string, start: nat)
    requires read <= text && start <= |read|
    ensures Contains(text, read[start..])
  {
    assert text[start..start + |read[start..]|] == read[start..];
    assert OccursAt(text, read[start..], start);
  }

  /** The earlier replacements are kept, and every one filed since was cut out of `text`. */
  predicate ModdedFrom(modded0: seq<ModdedFunction>, modded: seq<ModdedFunction>, text: string) {
    modded0 <= modded && forall f :: f in modded[|modded0|..] ==> FromText(f, text)
  }

  /**
   * What one overlay's scan has achieved so far: the records are valid, the
   * earlier ones are kept, and the new ones were cut out of `reached`.
   */
  predicate Progress(original: string, modded0: seq<ModdedFunction>, extended0: seq<ExtendedFunction>,
                     modded: seq<ModdedFunction>, extended: seq<ExtendedFunction>, reached: string) {
    RecordsValid(original, modded, extended) &&
    ModdedFrom(modded0, modded, reached) &&
    NewExtensionsFrom(extended0, extended, reached)
  }

  lemma ProgressStart(original: string, modded0: seq<ModdedFunction>, extended0: seq<ExtendedFunction>, reached: string)
    requires RecordsValid(original, modded0, extended0)
    ensures Progress(original, modded0, extended0, modded0, extended0, reached)
  {
  }

  lemma ModdedValidAppend(original: string, modded: seq<ModdedFunction>, f: ModdedFunction)
    requires ModdedValid(original, modded) && ReplacementValid(original, f)
    ensures ModdedValid(original, modded + [f])
  {
  }

  lemma DistinctDeclarationsAppend(modded: seq<ModdedFunction>, f: ModdedFunction)
    requires DistinctDeclarations(modded) && !DeclaredIn(modded, f.Declaration)
    ensures DistinctDeclarations(modded + [f])
  {
    forall i, j | 0 <= i < j < |modded| + 1 ensures (modded + [f])[i].Declaration != (modded + [f])[j].Declaration {
      if j == |modded| {
        assert modded[i].Declaration != f.Declaration;
      }
    }
  }

  lemma ModdedFromAppend(modded0: seq<ModdedFunction>, modded: seq<ModdedFunction>, text: string, f: ModdedFunction)
    requires ModdedFrom(modded0, modded, text) && FromText(f, text)
    ensures ModdedFrom(modded0, modded + [f], text)
  {
    assert modded0 <= modded + [f];
    assert (modded + [f])[|modded0|..] == modded[|modded0|..] + [f];
  }

  /** Filing a valid replacement with a new declaration, cut out of `reached`, keeps the progress. */
  lemma ProgressReplacement(original: string, modded0: seq<ModdedFunction>, extended0: seq<ExtendedFunction>,
                            modded: seq<ModdedFunction>, extended: seq<ExtendedFunction>, reached: string, f: ModdedFunction)
    requires Progress(original, modded0, extended0, modded, extended, reached)
    requires ReplacementValid(original, f) && !DeclaredIn(modded, f.Declaration)
    requires FromText(f, reached)
    ensures Progress(original, modded0, extended0, modded + [f], extended, reached)
  {
    ModdedValidAppend(original, modded, f);
    DistinctDeclarationsAppend(modded, f);
    ModdedFromAppend(modded0, modded, reached, f);
  }

  lemma ExtendedValidFile(extended: seq<ExtendedFunction>, name: string, f: ModdedFunction)
    requires ExtendedValid(extended) && ExtensionValid(name, f)
    ensures ExtendedValid(FileExtension(extended, name, f))
  {
    var r := FileExtension(extended, name, f);
    var i := IndexOfName(extended, name);
    forall ef | ef in r ensures ExtensionsValid(ef) {
      var e :| 0 <= e < |r| && r[e] == ef;
      if e != i {
        assert extended[e] in extended;
      } else if i < |extended| {
        assert extended[i] in extended;
        ExtensionsValidAppend(extended[i], f);
      } else {
        assert ef.Extensions == [f];
      }
    }
  }

  lemma ExtensionsValidAppend(ef: ExtendedFunction, f: ModdedFunction)
    requires ExtensionsValid(ef) && ExtensionValid(ef.FunctionName, f)
    ensures ExtensionsValid(ef.(Extensions := ef.Extensions + [f]))
  {
  }

  lemma DistinctNamesFile(extended: seq<ExtendedFunction>, name: string, f: ModdedFunction)
    requires DistinctNames(extended)
    ensures DistinctNames(FileExtension(extended, name, f))
  {
  }

  lemma NewExtensionsFromFile(extended0: seq<ExtendedFunction>, extended: seq<ExtendedFunction>, text: string,
                              name: string, f: ModdedFunction)
    requires NewExtensionsFrom(extended0, extended, text) && FromText(f, text)
    ensures NewExtensionsFrom(extended0, FileExtension(extended, name, f), text)
  {
    var r := FileExtension(extended, name, f);
    var i := IndexOfName(extended, name);
    forall e | 0 <= e < |extended0|
      ensures r[e].FunctionName == extended0[e].FunctionName && extended0[e].Extensions <= r[e].Extensions
    {
      if e == i {
        assert extended0[e].Extensions <= extended[e].Extensions;
      }
    }
    forall e | 0 <= e < |r|
      ensures forall g :: g in r[e].Extensions[OldCount(extended0, e)..] ==> FromText(g, text)
    {
      if e == i && i < |extended| {
        assert r[e].Extensions[OldCount(extended0, e)..] == extended[e].Extensions[OldCount(extended0, e)..] + [f];
      }
    }
  }

  /** Filing a valid extension of `name`, cut out of `reached`, keeps the progress. */
  lemma ProgressExtension(original: string, modded0: seq<ModdedFunction>, extended0: seq<ExtendedFunction>,
                          modded: seq<ModdedFunction>, extended: seq<ExtendedFunction>, reached: string,
                          name: string, f: ModdedFunction)
    requires Progress(original, modded0, extended0, modded, extended, reached)
    requires ExtensionValid(name, f) && FromText(f, reached)
    ensures Progress(original, modded0, extended0, modded, FileExtension(extended, name, f), reached)
  {
    ExtendedValidFile(extended, name, f);
    DistinctNamesFile(extended, name, f);
    NewExtensionsFromFile(extended0, extended, reached, name, f);
  }

  /** A record cut out of `text` whose block is whole puts a closing brace in `text`. */
  lemma RecordHoldsBrace(f: ModdedFunction, text: string)
    requires FromText(f, text) && BalancedBlock(f.Body)
    ensures '}' in text
  {
    var w := f.Declaration + f.Body;
    var p :| 0 <= p <= |text| && OccursAt(text, w, p);
    assert w[|w| - 1] == f.Body[|f.Body| - 1] == '}';
    assert text[p..p + |w|][|w| - 1] == text[p + |w| - 1];
  }

  /** Whatever a scan files was cut out of its text with a closing brace, so text without one files nothing. */
  lemma FiledOnlyWithBrace(original: string, modded0: seq<ModdedFunction>, extended0: seq<ExtendedFunction>,
                           modded: seq<ModdedFunction>, extended: seq<ExtendedFunction>, reached: string)
    requires Progress(original, modded0, extended0, modded, extended, reached)
    ensures modded != modded0 ==> '}' in reached
    ensures extended != extended0 ==> '}' in reached
  {
    if modded != modded0 {
      var f := modded[|modded0|];
      assert f in modded[|modded0|..];
      assert f in modded;
      RecordHoldsBrace(f, reached);
    }
    if extended != extended0 {
      var e: nat;
      if |extended| > |extended0| {
        e := |extended0|;
      } else {
        e :| e < |extended| && extended[e] != extended0[e];
        assert extended0[e].Extensions <= extended[e].Extensions;
      }
      var ef := extended[e];
      assert ef in extended;
      var g := ef.Extensions[OldCount(extended0, e)];
      assert g in ef.Extensions[OldCount(extended0, e)..];
      assert g in ef.Extensions;
      RecordHoldsBrace(g, reached);
    }
  }

  /**
   * Closing a block at depth 1: the line and the finished block are a piece
   * of what the scan reads, and the block is whole.
   */
  lemma CloseBlock(read: string, lineStart: nat, bodyStart: nat, line: string, body: string, reached: string)
    requires read <= reached && lineStart <= bodyStart < |read|
    requires line == read[lineStart..bodyStart] && body == read[bodyStart..]
    requires read[|read| - 1] == '}' && OpenBlock(body[..|body| - 1], 1)
    ensures Contains(reached, line + body) && BalancedBlock(body)
  {
    assert line + body == read[lineStart..];
    PieceOfPrefix(reached, read, lineStart);
    var open := body[..|body| - 1];
    assert body == open + ['}'];
    NetAppend(open, '}');
    forall k | 1 <= k < |body| ensures Net(body[..k]) >= 1 {
      assert body[..k] == open[..k];
    }
  }


  // ---------------------------------------------------------------------
  // The scan
  // ---------------------------------------------------------------------

  /** What becomes of a top-level block when its closing brace is read. */
  datatype Closing = JoinsPreamble | AsExtension | AsReplacement | Duplicate

  /**
   * The classification of a top-level block by its line: a struct, or a
   * non-extension block whose line is not in the original shader, joins the
   * pending preamble; otherwise an `#extends` block is an extension, and any
   * other block a replacement unless its declaration was filed before.
   */
  function Classify(original: string, line: string, isExtension: bool, modded: seq<ModdedFunction>): (r: Closing)
    ensures r == JoinsPreamble <==> IsStructDecl(line) || (!isExtension && !Contains(original, line))
    ensures r == AsExtension <==> !IsStructDecl(line) && isExtension
    ensures r == AsReplacement <==>
      !IsStructDecl(line) && !isExtension && Contains(original, line) && !DeclaredIn(modded, line)
    ensures r == Duplicate <==>
      !IsStructDecl(line) && !isExtension && Contains(original, line) && DeclaredIn(modded, line)
  {
    FindFindsFactor(original, line);
    if IsStructDecl(line) || (!isExtension && Find(original, line, 0) < 0) then JoinsPreamble
    else if isExtension then AsExtension
    else if !DeclaredIn(modded, line) then AsReplacement
    else Duplicate
  }

  /**
   * The buffers of one overlay's scan: pending preamble, current line,
   * current block, the `#extends` flag and the scope depth.
   */
  datatype Scanner = Scanner(Preamble: string, Line: string, Body: string, IsExtension: bool, Depth: nat)

  /**
   * How the buffers sit on the comment-free text read so far: the line is
   * empty or starts with a non-space; at depth 0 it runs to the end of what
   * was read; inside a block the line ends where the block starts and the
   * block is still open at the current depth.
   */
  predicate Framed(sc: Scanner, seen: string, lineStart: nat, bodyStart: nat) {
    (sc.Line == [] || !IsSpace(sc.Line[0])) &&
    (sc.Depth == 0 ==> lineStart <= |seen| && sc.Line == seen[lineStart..]) &&
    (sc.Depth >= 1 ==>
      lineStart <= bodyStart <= |seen| && sc.Line == seen[lineStart..bodyStart] &&
      sc.Body == seen[bodyStart..] && OpenBlock(sc.Body, sc.Depth))
  }

  /**
   * The buffers once the scope depth has been updated for character c, just
   * before c itself is stored: as Framed, except that inside a block it is
   * the block with c added that must be open.
   */
  predicate Staged(sc: Scanner, seen: string, lineStart: nat, bodyStart: nat, c: char) {
    (sc.Line == [] || !IsSpace(sc.Line[0])) &&
    (sc.Depth == 0 ==> lineStart <= |seen| && sc.Line == seen[lineStart..]) &&
    (sc.Depth >= 1 ==>
      lineStart <= bodyStart <= |seen| && sc.Line == seen[lineStart..bodyStart] &&
      sc.Body == seen[bodyStart..] && OpenBlock(sc.Body + [c], sc.Depth))
  }

  /** The scanner's buffers together with the records filed so far. */
  datatype ScanState = ScanState(Sc: Scanner, Modded: seq<ModdedFunction>, Extended: seq<ExtendedFunction>)

  /** The buffers with character c stored: see StoreChar. */
  function Stored(sc: Scanner, c: char): Scanner {
    if sc.Depth == 0 then sc.(Line := if sc.Line == [] && IsSpace(c) then [] else sc.Line + [c])
    else sc.(Body := sc.Body + [c])
  }

  /**
   * The buffers just before character c is stored: a `{` raises the depth
   * (at depth 0 starting an empty block), a top-level newline flushes the
   * line.
   */
  function Prepared(c: char, sc: Scanner): Scanner {
    if c == '{' then sc.(Body := if sc.Depth == 0 then "" else sc.Body, Depth := sc.Depth + 1)
    else if c == '\n' && sc.Depth == 0 then
      if sc.Line == "#extends" then sc.(IsExtension := true, Line := "")
      else sc.(Preamble := sc.Preamble + sc.Line + "\n", IsExtension := false, Line := "")
    else sc
  }

  /** The buffers after one character that is not a closing brace inside a block: see Consume. */
  function Advance(c: char, sc: Scanner): Scanner {
    if c == '}' then sc else Stored(Prepared(c, sc), c)
  }

  /** The state after a closing brace inside a block: see CloseBrace. */
  function Closed(original: string, st: ScanState): ScanState
    requires st.Sc.Depth >= 1
  {
    var sc := st.Sc;
    if sc.Depth > 1 then st.(Sc := Stored(sc.(Depth := sc.Depth - 1), '}'))
    else
      var f := ModdedFunction(sc.Preamble, sc.Line, sc.Body + "}");
      match Classify(original, sc.Line, sc.IsExtension, st.Modded)
      case JoinsPreamble => st.(Sc := Stored(Scanner(sc.Preamble + sc.Line + sc.Body, "", "", false, 0), '}'))
      case Duplicate => st.(Sc := Stored(Scanner(sc.Preamble, "", "", false, 0), '}'))
      case AsReplacement => ScanState(Scanner("", "", "", false, 0), st.Modded + [f], st.Extended)
      case AsExtension =>
        match ExtensionName(sc.Line)
        case None => st.(Sc := Scanner(sc.Preamble, "", "", false, 0))
        case Some(name) => ScanState(Scanner("", "", "", false, 0), st.Modded, FileExtension(st.Extended, name, f))
  }

  /** The state after one character outside comments; a `}` at depth 0 changes nothing (the scan stops there). */
  function Step(original: string, c: char, st: ScanState): ScanState {
    if c == '}' && st.Sc.Depth >= 1 then Closed(original, st) else st.(Sc := Advance(c, st.Sc))
  }

  /** The state after the first n characters of the comment-free text d. */
  function Run(original: string, d: string, n: nat, st: ScanState): ScanState
    requires n <= |d|
  {
    if n == 0 then st else Step(original, d[n - 1], Run(original, d, n - 1, st))
  }

  /** The state in which the scan of one overlay ends, from empty buffers and the given records. */
  function OverlayScan(original: string, overlay: string, modded0: seq<ModdedFunction>, extended0: seq<ExtendedFunction>): ScanState {
    var d := Decomment(overlay);
    Run(original, d, StopIndex(d, 0, 0), ScanState(Scanner("", "", "", false, 0), modded0, extended0))
  }

  /** The records filed by scanning the overlays in order, an empty overlay skipped. */
  function ScanAll(original: string, overlays: seq<string>): ScanState {
    if overlays == [] then ScanState(Scanner("", "", "", false, 0), [], [])
    else
      var before := ScanAll(original, overlays[..|overlays| - 1]);
      var last := overlays[|overlays| - 1];
      if last == [] then before else OverlayScan(original, last, before.Modded, before.Extended)
  }

  /**
   * Stores character c: at depth 0 it joins the line unless the line is
   * empty and c is a space; inside a block it joins the block.
   */
  method StoreChar(sc: Scanner, c: char, ghost seen: string, ghost lineStart: nat, ghost bodyStart: nat)
    returns (sc': Scanner, ghost lineStart': nat)
    requires Staged(sc, seen, lineStart, bodyStart, c)
    ensures Framed(sc', seen + [c], lineStart', bodyStart)
    ensures sc' == Stored(sc, c)
  {
    sc', lineStart' := sc, lineStart;
    if sc.Depth == 0 {
      if sc.Line != [] || !IsSpace(c) {
        sc' := sc.(Line := sc.Line + [c]);
        assert (seen + [c])[lineStart..] == seen[lineStart..] + [c];
      } else {
        lineStart' := |seen| + 1;
      }
    } else {
      sc' := sc.(Body := sc.Body + [c]);
      assert (seen + [c])[lineStart..bodyStart] == seen[lineStart..bodyStart];
      assert (seen + [c])[bodyStart..] == seen[bodyStart..] + [c];
    }
  }

  /** The block closed by the brace just read, with its line, is a whole block cut out of what the scan reads. */
  lemma ClosedBlock(sc: Scanner, seen: string, lineStart: nat, bodyStart: nat, reached: string, preamble: string)
    requires sc.Depth == 1 && Framed(sc, seen, lineStart, bodyStart) && seen + ['}'] <= reached
    ensures FromText(ModdedFunction(preamble, sc.Line, sc.Body + "}"), reached) && BalancedBlock(sc.Body + "}")
  {
    var body := sc.Body + "}";
    assert body[..|body| - 1] == sc.Body;
    CloseBlock(seen + ['}'], lineStart, bodyStart, sc.Line, body, reached);
  }

  /**
   * Files a replacement: the pending preamble, the line and the block closed
   * by the brace just read.
   */
  method FileReplacement(original: string, sc: Scanner, modded: seq<ModdedFunction>, extended: seq<ExtendedFunction>,
                         ghost modded0: seq<ModdedFunction>, ghost extended0: seq<ExtendedFunction>,
                         ghost reached: string, ghost seen: string, ghost lineStart: nat, ghost bodyStart: nat)
    returns (modded': seq<ModdedFunction>)
    requires sc.Depth == 1 && Framed(sc, seen, lineStart, bodyStart) && seen + ['}'] <= reached
    requires Progress(original, modded0, extended0, modded, extended, reached)
    requires Classify(original, sc.Line, sc.IsExtension, modded) == AsReplacement
    ensures modded' == modded + [ModdedFunction(sc.Preamble, sc.Line, sc.Body + "}")]
    ensures Progress(original, modded0, extended0, modded', extended, reached)
  {
    ClosedBlock(sc, seen, lineStart, bodyStart, reached, sc.Preamble);
    var f := ModdedFunction(sc.Preamble, sc.Line, sc.Body + "}");
    ProgressReplacement(original, modded0, extended0, modded, extended, reached, f);
    modded' := modded + [f];
  }

  /**
   * Files an extension under the name its line gives, when the line has a
   * space and a parenthesis; otherwise the block is dropped.
   */
  method FileExtensionBlock(original: string, sc: Scanner, modded: seq<ModdedFunction>, extended: seq<ExtendedFunction>,
                            ghost modded0: seq<ModdedFunction>, ghost extended0: seq<ExtendedFunction>,
                            ghost reached: string, ghost seen: string, ghost lineStart: nat, ghost bodyStart: nat)
    returns (extended': seq<ExtendedFunction>, filed: bool)
    requires sc.Depth == 1 && Framed(sc, seen, lineStart, bodyStart) && seen + ['}'] <= reached
    requires Progress(original, modded0, extended0, modded, extended, reached)
    requires Classify(original, sc.Line, sc.IsExtension, modded) == AsExtension
    ensures filed <==> ExtensionName(sc.Line).Some?
    ensures filed ==>
      extended' == FileExtension(extended, ExtensionName(sc.Line).value, ModdedFunction(sc.Preamble, sc.Line, sc.Body + "}"))
    ensures !filed ==> extended' == extended
    ensures Progress(original, modded0, extended0, modded, extended', reached)
  {
    extended', filed := extended, false;
    ClosedBlock(sc, seen, lineStart, bodyStart, reached, sc.Preamble);
    var name := ExtensionName(sc.Line);
    if name.Some? {
      var f := ModdedFunction(sc.Preamble, sc.Line, sc.Body + "}");
      ProgressExtension(original, modded0, extended0, modded, extended, reached, name.value, f);
      extended', filed := FileExtension(extended, name.value, f), true;
    }
  }

  /**
   * The closing brace of a top-level block, filed as Classify says.  An
   * extension or a replacement consumes the brace; a block that joins the
   * preamble, and a duplicate replacement, leave the brace to start the
   * next line.  A filed record takes the pending preamble with it.
   */
  method CloseTopBlock(original: string, sc: Scanner, modded: seq<ModdedFunction>, extended: seq<ExtendedFunction>,
                       ghost modded0: seq<ModdedFunction>, ghost extended0: seq<ExtendedFunction>,
                       ghost reached: string, ghost seen: string, ghost lineStart: nat, ghost bodyStart: nat)
    returns (sc': Scanner, modded': seq<ModdedFunction>, extended': seq<ExtendedFunction>, consumed: bool)
    requires sc.Depth == 1 && Framed(sc, seen, lineStart, bodyStart) && seen + ['}'] <= reached
    requires Progress(original, modded0, extended0, modded, extended, reached)
    ensures var k := Classify(original, sc.Line, sc.IsExtension, modded);
      (consumed <==> k == AsExtension || k == AsReplacement) &&
      (k == JoinsPreamble ==> sc'.Preamble == sc.Preamble + sc.Line + sc.Body) &&
      (k == Duplicate ==> sc'.Preamble == sc.Preamble) &&
      (k == AsReplacement ==> sc'.Preamble == [] && modded' == modded + [ModdedFunction(sc.Preamble, sc.Line, sc.Body + "}")]) &&
      (k != AsReplacement ==> modded' == modded) &&
      (k == AsExtension && ExtensionName(sc.Line).Some? ==>
        sc'.Preamble == [] &&
        extended' == FileExtension(extended, ExtensionName(sc.Line).value, ModdedFunction(sc.Preamble, sc.Line, sc.Body + "}"))) &&
      (k == AsExtension && ExtensionName(sc.Line).None? ==> sc'.Preamble == sc.Preamble) &&
      (!(k == AsExtension && ExtensionName(sc.Line).Some?) ==> extended' == extended)
    ensures sc'.Line == [] && sc'.Body == [] && !sc'.IsExtension && sc'.Depth == 1
    ensures Progress(original, modded0, extended0, modded', extended', reached)
  {
    modded', extended' := modded, extended;
    var k := Classify(original, sc.Line, sc.IsExtension, modded);
    match k {
      case JoinsPreamble =>
        sc', consumed := Scanner(sc.Preamble + sc.Line + sc.Body, "", "", false, 1), false;
      case AsExtension =>
        var filed;
        extended', filed := FileExtensionBlock(original, sc, modded, extended, modded0, extended0, reached, seen, lineStart, bodyStart);
        sc', consumed := Scanner(if filed then "" else sc.Preamble, "", "", false, 1), true;
      case AsReplacement =>
        modded' := FileReplacement(original, sc, modded, extended, modded0, extended0, reached, seen, lineStart, bodyStart);
        sc', consumed := Scanner("", "", "", false, 1), true;
      case Duplicate =>
        sc', consumed := Scanner(sc.Preamble, "", "", false, 1), false;
    }
  }

  /**
   * A closing brace inside a block lowers the scope depth.  At depth 1 it
   * closes a top-level block, which is filed as CloseTopBlock says; unless
   * the block was filed, the brace is then stored like any other character.
   */
  method CloseBrace(original: string, sc: Scanner, modded: seq<ModdedFunction>, extended: seq<ExtendedFunction>,
                    ghost modded0: seq<ModdedFunction>, ghost extended0: seq<ExtendedFunction>,
                    ghost reached: string, ghost seen: string, ghost lineStart: nat, ghost bodyStart: nat)
    returns (sc': Scanner, modded': seq<ModdedFunction>, extended': seq<ExtendedFunction>, ghost lineStart': nat)
    requires sc.Depth >= 1 && Framed(sc, seen, lineStart, bodyStart) && seen + ['}'] <= reached
    requires Progress(original, modded0, extended0, modded, extended, reached)
    ensures sc'.Depth == sc.Depth - 1 && Framed(sc', seen + ['}'], lineStart', bodyStart)
    ensures ScanState(sc', modded', extended') == Closed(original, ScanState(sc, modded, extended))
    ensures Progress(original, modded0, extended0, modded', extended', reached)
  {
    var staged := sc;
    var consumed := false;
    modded', extended', lineStart' := modded, extended, lineStart;
    if sc.Depth == 1 {
      staged, modded', extended', consumed :=
        CloseTopBlock(original, sc, modded, extended, modded0, extended0, reached, seen, lineStart, bodyStart);
      lineStart' := |seen| + 1;
    } else {
      OpenBlockGrow(sc.Body, sc.Depth, '}');
    }
    staged := staged.(Depth := staged.Depth - 1);
    sc' := staged;
    if !consumed {
      sc', lineStart' := StoreChar(staged, '}', seen, if sc.Depth == 1 then |seen| else lineStart, bodyStart);
    }
  }

  /**
   * Preparing for a character other than `}` keeps the buffers framed on
   * the text read, with the block to which the character is added open.
   */
  lemma PreparedStaged(c: char, sc: Scanner, seen: string, lineStart: nat, bodyStart: nat)
    returns (lineStart': nat, bodyStart': nat)
    requires c != '}' && Framed(sc, seen, lineStart, bodyStart)
    ensures Prepared(c, sc).Depth == sc.Depth + Delta(c)
    ensures Staged(Prepared(c, sc), seen, lineStart', bodyStart', c)
  {
    lineStart', bodyStart' := lineStart, bodyStart;
    if c == '{' && sc.Depth == 0 {
      bodyStart' := |seen|;
      OpenBlockStart();
    } else if c == '\n' && sc.Depth == 0 {
      lineStart' := |seen|;
    } else if sc.Depth >= 1 {
      OpenBlockGrow(sc.Body, sc.Depth, c);
    }
  }

  /**
   * One character outside comments, other than a closing brace inside a
   * block: a `{` raises the scope depth and at depth 0 starts a block, a
   * top-level newline flushes the line into the preamble (or sets the
   * `#extends` flag when the line is exactly that), and the character then
   * joins the line (at depth 0, leading spaces skipped) or the block.  A `}`
   * at depth 0 stops the scan.
   */
  method Consume(c: char, sc: Scanner, ghost seen: string, ghost lineStart: nat, ghost bodyStart: nat)
    returns (sc': Scanner, stopped: bool, ghost lineStart': nat, ghost bodyStart': nat)
    requires !(c == '}' && sc.Depth >= 1)
    requires Framed(sc, seen, lineStart, bodyStart)
    ensures stopped <==> c == '}'
    ensures sc' == Advance(c, sc)
    ensures !stopped ==> sc'.Depth == sc.Depth + Delta(c) && Framed(sc', seen + [c], lineStart', bodyStart')
  {
    if c == '}' {
      // a stray closing brace: the overlay is malformed and its scan ends here
      sc', stopped, lineStart', bodyStart' := sc, true, lineStart, bodyStart;
      return;
    }
    var staged := sc;
    if c == '{' {
      if sc.Depth == 0 {
        staged := staged.(Body := "");
      }
      staged := staged.(Depth := staged.Depth + 1);
    } else if c == '\n' && sc.Depth == 0 {
      if sc.Line == "#extends" {
        staged := staged.(IsExtension := true);
      } else {
        staged := staged.(Preamble := sc.Preamble + sc.Line + "\n", IsExtension := false);
      }
      staged := staged.(Line := "");
    }
    assert staged == Prepared(c, sc);
    stopped := false;
    lineStart', bodyStart' := PreparedStaged(c, sc, seen, lineStart, bodyStart);
    sc', lineStart' := StoreChar(staged, c, seen, lineStart', bodyStart');
  }

  /**
   * One character outside comments, at index |seen| of the comment-free
   * text d: a closing brace inside a block goes to CloseBrace, any other
   * character to Consume.
   */
  method ReadCode(original: string, c: char, sc: Scanner, modded: seq<ModdedFunction>, extended: seq<ExtendedFunction>,
                  ghost modded0: seq<ModdedFunction>, ghost extended0: seq<ExtendedFunction>,
                  ghost d: string, ghost stop: nat, ghost seen: string, ghost lineStart: nat, ghost bodyStart: nat)
    returns (sc': Scanner, modded': seq<ModdedFunction>, extended': seq<ExtendedFunction>, stopped: bool,
             ghost lineStart': nat, ghost bodyStart': nat)
    requires |seen| < |d| && d[|seen|] == c && d[..|seen| + 1] == seen + [c]
    requires |seen| <= stop <= |d| && StopIndex(d, |seen|, sc.Depth) == stop
    requires Framed(sc, seen, lineStart, bodyStart)
    requires Progress(original, modded0, extended0, modded, extended, d[..stop])
    ensures stopped <==> c == '}' && sc.Depth == 0
    ensures ScanState(sc', modded', extended') == Step(original, c, ScanState(sc, modded, extended))
    ensures !stopped ==>
      |seen| + 1 <= stop && StopIndex(d, |seen| + 1, sc'.Depth) == stop && Framed(sc', seen + [c], lineStart', bodyStart')
    ensures Progress(original, modded0, extended0, modded', extended', d[..stop])
  {
    modded', extended', stopped, bodyStart' := modded, extended, false, bodyStart;
    if !(c == '}' && sc.Depth == 0) {
      StopIndexStep(d, |seen|, sc.Depth);
    }
    if c == '}' && sc.Depth >= 1 {
      sc', modded', extended', lineStart' :=
        CloseBrace(original, sc, modded, extended, modded0, extended0, d[..stop], seen, lineStart, bodyStart);
    } else {
      sc', stopped, lineStart', bodyStart' := Consume(c, sc, seen, lineStart, bodyStart);
    }
  }

  /**
   * ReadCode at index |seen| of d, starting from the state in which
   * scanning the first |seen| characters of d from start ends: it ends in
   * the state after |seen| + 1 characters, or after |seen| when it stops.
   */
  method ReadNext(original: string, c: char, sc: Scanner, modded: seq<ModdedFunction>, extended: seq<ExtendedFunction>,
                  ghost modded0: seq<ModdedFunction>, ghost extended0: seq<ExtendedFunction>,
                  ghost d: string, ghost stop: nat, ghost seen: string, ghost lineStart: nat, ghost bodyStart: nat,
                  ghost start: ScanState)
    returns (sc': Scanner, modded': seq<ModdedFunction>, extended': seq<ExtendedFunction>, stopped: bool,
             ghost lineStart': nat, ghost bodyStart': nat)
    requires |seen| < |d| && d[|seen|] == c && d[..|seen| + 1] == seen + [c]
    requires |seen| <= stop <= |d| && StopIndex(d, |seen|, sc.Depth) == stop
    requires Framed(sc, seen, lineStart, bodyStart)
    requires Progress(original, modded0, extended0, modded, extended, d[..stop])
    requires ScanState(sc, modded, extended) == Run(original, d, |seen|, start)
    ensures stopped ==> |seen| == stop
    ensures !stopped ==>
      |seen| + 1 <= stop && StopIndex(d, |seen| + 1, sc'.Depth) == stop && Framed(sc', seen + [c], lineStart', bodyStart')
    ensures Progress(original, modded0, extended0, modded', extended', d[..stop])
    ensures ScanState(sc', modded', extended') == Run(original, d, if stopped then |seen| else |seen| + 1, start)
  {
    sc', modded', extended', stopped, lineStart', bodyStart' :=
      ReadCode(original, c, sc, modded, extended, modded0, extended0, d, stop, seen, lineStart, bodyStart);
  }

  /**
   * The comment automaton on the character at index i: `//` and `/*` open a
   * comment outside one, a newline ends a line comment and `*/` a block
   * comment, each two-character delimiter being read in one go.  The
   * character is code when it lies outside comments and opens none; the
   * text outside comments from i onwards is unchanged by the step.
   */
  method CommentStep(overlay: string, i: nat, comment: CommentState)
    returns (i': nat, comment': CommentState, code: bool)
    requires i < |overlay|
    ensures i < i' <= |overlay|
    ensures code ==>
      comment == NoComment && comment' == NoComment && i' == i + 1 &&
      !(overlay[i] == '/' && i + 1 < |overlay| && (overlay[i + 1] == '/' || overlay[i + 1] == '*'))
    ensures !code ==> Visible(overlay, i, comment) == Visible(overlay, i', comment')
  {
    var c := overlay[i];
    i', comment', code := i + 1, comment, false;
    var next := if i' < |overlay| then overlay[i'] else '?';
    if comment == NoComment && c == '/' {
      if next == '/' {
        i', comment' := i' + 1, SingleLine;
      } else if next == '*' {
        i', comment' := i' + 1, MultiLine;
      } else {
        code := true;
      }
    } else if comment == SingleLine {
      if c == '\n' {
        comment' := NoComment;
      }
    } else if comment == MultiLine {
      if c == '*' && next == '/' {
        i', comment' := i' + 1, NoComment;
      }
    } else {
      code := true;
    }
  }

  /** A character outside comments moves from the unread text to the text read. */
  lemma VisibleChar(s: string, i: nat, d: string, seen: string)
    requires i < |s| && seen <= d && d[|seen|..] == Visible(s, i, NoComment)
    requires !(s[i] == '/' && i + 1 < |s| && (s[i + 1] == '/' || s[i + 1] == '*'))
    ensures |seen| < |d| && d[|seen|] == s[i] && d[..|seen| + 1] == seen + [s[i]]
    ensures seen + [s[i]] <= d && d[|seen| + 1..] == Visible(s, i + 1, NoComment)
  {
    assert Visible(s, i, NoComment) == [s[i]] + Visible(s, i + 1, NoComment);
    assert d[|seen| + 1..] == d[|seen|..][1..];
  }

  /**
   * Reads one overlay and files its blocks into the replacements and the
   * extension entries gathered from earlier overlays.  The pending preamble
   * is local to the overlay.  A `}` at scope depth 0 ends the scan of this
   * overlay; what was filed before it is kept.
   */
  method ScanOverlay(original: string, overlay: string, modded0: seq<ModdedFunction>, extended0: seq<ExtendedFunction>)
    returns (modded: seq<ModdedFunction>, extended: seq<ExtendedFunction>)
    requires RecordsValid(original, modded0, extended0)
    ensures Progress(original, modded0, extended0, modded, extended, Reached(overlay))
    ensures '}' !in Reached(overlay) ==> modded == modded0 && extended == extended0
    ensures modded == OverlayScan(original, overlay, modded0, extended0).Modded
    ensures extended == OverlayScan(original, overlay, modded0, extended0).Extended
  {
    ghost var d := Decomment(overlay);
    ghost var stop := StopIndex(d, 0, 0);
    ghost var start := ScanState(Scanner("", "", "", false, 0), modded0, extended0);
    assert d[..stop] == Reached(overlay);
    ProgressStart(original, modded0, extended0, d[..stop]);

    var sc := Scanner("", "", "", false, 0);
    modded, extended := modded0, extended0;
    var i := 0;
    var comment := NoComment;
    // the comment-free characters read so far, and where the line and the block begin in them
    ghost var seen: string := "";
    ghost var lineStart: nat := 0;
    ghost var bodyStart: nat := 0;

    while i < |overlay|
      invariant i <= |overlay|
      invariant seen <= d && d[|seen|..] == Visible(overlay, i, comment)
      invariant |seen| <= stop && StopIndex(d, |seen|, sc.Depth) == stop
      invariant Framed(sc, seen, lineStart, bodyStart)
      invariant Progress(original, modded0, extended0, modded, extended, d[..stop])
      invariant ScanState(sc, modded, extended) == Run(original, d, |seen|, start)
    {
      ghost var i0 := i;
      var c := overlay[i];
      var code;
      i, comment, code := CommentStep(overlay, i, comment);
      if !code {
        continue;
      }
      // c lies outside any comment: it is the next character of d
      VisibleChar(overlay, i0, d, seen);
      var stopped;
      sc, modded, extended, stopped, lineStart, bodyStart :=
        ReadNext(original, c, sc, modded, extended, modded0, extended0, d, stop, seen, lineStart, bodyStart, start);
      if stopped {
        break;
      }
      seen := seen + [c];
    }
    assert |seen| == stop;
    FiledOnlyWithBrace(original, modded0, extended0, modded, extended, d[..stop]);
  }

  /** Record f was cut out of the part some overlay's scan reads. */
  predicate FromSomeOverlay(f: ModdedFunction, overlays: seq<string>) {
    exists j :: 0 <= j < |overlays| && FromText(f, Reached(overlays[j]))
  }

  /** Every replacement and every extension was cut out of one of the overlays. */
  predicate AllFromOverlays(modded: seq<ModdedFunction>, extended: seq<ExtendedFunction>, overlays: seq<string>) {
    (forall f :: f in modded ==> FromSomeOverlay(f, overlays)) &&
    (forall ef, f :: ef in extended && f in ef.Extensions ==> FromSomeOverlay(f, overlays))
  }

  /** No overlay reaches a closing brace, so none has a block to file. */
  predicate NoBlocks(overlays: seq<string>) {
    forall j :: 0 <= j < |overlays| ==> '}' !in Reached(overlays[j])
  }

  lemma FromLongerPrefix(f: ModdedFunction, overlays: seq<string>, k: nat)
    requires k < |overlays| && FromSomeOverlay(f, overlays[..k])
    ensures FromSomeOverlay(f, overlays[..k + 1])
  {
    var j :| 0 <= j < k && FromText(f, Reached(overlays[..k][j]));
    assert overlays[..k + 1][j] == overlays[..k][j];
  }

  lemma FromMoreOverlays(modded: seq<ModdedFunction>, extended: seq<ExtendedFunction>, overlays: seq<string>, k: nat)
    requires k < |overlays| && AllFromOverlays(modded, extended, overlays[..k])
    ensures AllFromOverlays(modded, extended, overlays[..k + 1])
  {
    forall f | f in modded ensures FromSomeOverlay(f, overlays[..k + 1]) {
      FromLongerPrefix(f, overlays, k);
    }
    forall ef, f | ef in extended && f in ef.Extensions ensures FromSomeOverlay(f, overlays[..k + 1]) {
      FromLongerPrefix(f, overlays, k);
    }
  }

  /** After scanning overlay k, the records come from the first k + 1 overlays. */
  lemma OriginsAfterScan(original: string, modded0: seq<ModdedFunction>, extended0: seq<ExtendedFunction>,
                         modded: seq<ModdedFunction>, extended: seq<ExtendedFunction>, overlays: seq<string>, k: nat)
    requires k < |overlays| && AllFromOverlays(modded0, extended0, overlays[..k])
    requires Progress(original, modded0, extended0, modded, extended, Reached(overlays[k]))
    ensures AllFromOverlays(modded, extended, overlays[..k + 1])
  {
    FromMoreOverlays(modded0, extended0, overlays, k);
    var later := overlays[..k + 1];
    assert later[k] == overlays[k];
    forall f | f in modded ensures FromSomeOverlay(f, later) {
      var x :| 0 <= x < |modded| && modded[x] == f;
      if x < |modded0| {
        assert modded0[x] in modded0;
      } else {
        assert f in modded[|modded0|..];
      }
    }
    forall ef, f | ef in extended && f in ef.Extensions ensures FromSomeOverlay(f, later) {
      var x :| 0 <= x < |extended| && extended[x] == ef;
      var y :| 0 <= y < |ef.Extensions| && ef.Extensions[y] == f;
      if y < OldCount(extended0, x) {
        assert extended0[x].Extensions[y] == f;
        assert extended0[x] in extended0;
      } else {
        assert f in ef.Extensions[OldCount(extended0, x)..];
      }
    }
  }

  /**
   * The tokenizer over all overlays in order, each starting with an empty
   * preamble, empty buffers and depth 0; an empty overlay is skipped.  The
   * records it leaves are valid, each was cut out of some overlay, and when
   * no overlay reaches a closing brace there are none.
   */
  method ScanOverlays(original: string, overlays: seq<string>)
    returns (modded: seq<ModdedFunction>, extended: seq<ExtendedFunction>)
    ensures RecordsValid(original, modded, extended)
    ensures AllFromOverlays(modded, extended, overlays)
    ensures NoBlocks(overlays) ==> modded == [] && extended == []
    ensures modded == ScanAll(original, overlays).Modded && extended == ScanAll(original, overlays).Extended
  {
    modded, extended := [], [];
    for k := 0 to |overlays|
      invariant RecordsValid(original, modded, extended)
      invariant AllFromOverlays(modded, extended, overlays[..k])
      invariant NoBlocks(overlays) ==> modded == [] && extended == []
      invariant modded == ScanAll(original, overlays[..k]).Modded && extended == ScanAll(original, overlays[..k]).Extended
    {
      assert overlays[..k + 1][..k] == overlays[..k];
      if overlays[k] != [] {
        var modded', extended' := ScanOverlay(original, overlays[k], modded, extended);
        OriginsAfterScan(original, modded, extended, modded', extended', overlays, k);
        modded, extended := modded', extended';
      } else {
        FromMoreOverlays(modded, extended, overlays, k);
      }
    }
    assert overlays[..|overlays|] == overlays;
  }
}
