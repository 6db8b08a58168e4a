/**
 * The handful of std::string and string-utility operations that the shader
 * merger and the sheet planner rely on, each with the behaviour its C++
 * counterpart documents.  Positions are `int`, and `-1` stands for
 * std::string::npos.
 */
module Text {

  /** std::isspace in the "C" locale. */
  predicate IsSpace(c: char) {
    c == ' ' || c == '\t' || c == '\n' || c == '\U{0B}' || c == '\U{0C}' || c == '\r'
  }

  /** `pat` occurs in `s` starting at index `p`. */
  predicate OccursAt(s: string, pat: string, p: int) {
    0 <= p && p + |pat| <= |s| && s[p..p + |pat|] == pat
  }

  /** `pat` is a contiguous piece (a factor) of `s`. */
  predicate Contains(s: string, pat: string) {
    exists p | 0 <= p <= |s| :: OccursAt(s, pat, p)
  }

  /** The characters of `pat` from index k on match those of `s` from p + k on, compared one by one. */
  predicate MatchesFrom(s: string, pat: string, p: nat, k: nat)
    requires k <= |pat|
    decreases |pat| - k
  {
    if k == |pat| then p + k <= |s|
    else p + k < |s| && s[p + k] == pat[k] && MatchesFrom(s, pat, p, k + 1)
  }

  /** Comparing character by character is comparing the pieces. */
  lemma {:induction false} MatchesFromOccurs(s: string, pat: string, p: nat, k: nat)
    requires k <= |pat|
    ensures MatchesFrom(s, pat, p, k) <==> p + |pat| <= |s| && s[p + k..p + |pat|] == pat[k..]
    decreases |pat| - k
  {
    if k < |pat| {
      MatchesFromOccurs(s, pat, p, k + 1);
      if p + |pat| <= |s| {
        assert s[p + k..p + |pat|] == [s[p + k]] + s[p + k + 1..p + |pat|];
        assert pat[k..] == [pat[k]] + pat[k + 1..];
      }
    }
  }

  /** std::string::find(pat, from): the first occurrence at or after `from`. */
  function Find(s: string, pat: string, from: nat): (r: int)
    ensures r == -1 || (from <= r && OccursAt(s, pat, r))
    ensures forall q :: from <= q && (r == -1 || q < r) ==> !OccursAt(s, pat, q)
    decreases |s| - from
  {
    MatchesFromOccurs(s, pat, from, 0);
    if from + |pat| > |s| then -1
    else if MatchesFrom(s, pat, from, 0) then from
    else Find(s, pat, from + 1)
  }

  /** The last index below `end` holding `c`. */
  function RFindBelow(s: string, c: char, end: nat): (r: int)
    requires end <= |s|
    ensures -1 <= r < end
    ensures r >= 0 ==> s[r] == c
    ensures forall q :: r < q < end ==> s[q] != c
  {
    if end == 0 then -1
    else if s[end - 1] == c then end - 1
    else RFindBelow(s, c, end - 1)
  }

  /** std::string::rfind(c, pos): the last occurrence at or before `pos`. */
  function RFind(s: string, c: char, pos: nat): (r: int)
    ensures -1 <= r <= pos && r < |s|
    ensures r >= 0 ==> s[r] == c
    ensures forall q :: r < q <= pos && q < |s| ==> s[q] != c
  {
    RFindBelow(s, c, if pos < |s| then pos + 1 else |s|)
  }

  /** s.substr(pos, end - pos) with the count computed in size_t: when
      `end` lies before `pos` the count wraps round to a huge value and the
      substring runs to the end of `s`. */
  function SubstrTo(s: string, pos: nat, end: int): (r: string)
    requires pos <= |s|
    ensures OccursAt(s, r, pos) && Contains(s, r)
    ensures |r| == if pos <= end && end < |s| then end - pos else |s| - pos
  {
    var r := if pos <= end then s[pos..if end < |s| then end else |s|] else s[pos..];
    assert OccursAt(s, r, pos);
    r
  }

  /** `s` with `t` inserted before index `pos` (std::string::insert). */
  function Insert(s: string, pos: nat, t: string): (r: string)
    requires pos <= |s|
    ensures |r| == |s| + |t| && r[..pos] == s[..pos] && r[pos + |t|..] == s[pos..]
    ensures OccursAt(r, t, pos)
  {
    s[..pos] + t + s[pos..]
  }

  /**
   * s.replace(s.find(pat, from), |pat|, with): the first occurrence of `pat`
   * at or after `from` replaced by `with`, and `s` itself when there is none.
   */
  function ReplaceFirst(s: string, pat: string, with: string, from: nat): string
    decreases |s| - from
  {
    if from + |pat| > |s| then s
    else if MatchesFrom(s, pat, from, 0) then s[..from] + with + s[from + |pat|..]
    else ReplaceFirst(s, pat, with, from + 1)
  }

  /** ReplaceFirst replaces exactly at the position find reports. */
  lemma {:induction false} ReplaceFirstAtFind(s: string, pat: string, with: string, from: nat)
    requires Find(s, pat, from) >= 0
    ensures var p := Find(s, pat, from);
      ReplaceFirst(s, pat, with, from) == s[..p] + with + s[p + |pat|..]
    decreases |s| - from
  {
    if from + |pat| <= |s| && !MatchesFrom(s, pat, from, 0) {
      ReplaceFirstAtFind(s, pat, with, from + 1);
    }
  }

  function TrimLeft(s: string): string {
    if s != [] && IsSpace(s[0]) then TrimLeft(s[1..]) else s
  }

  function TrimRight(s: string): string {
    if s != [] && IsSpace(s[|s| - 1]) then TrimRight(s[..|s| - 1]) else s
  }

  /** algo::trim: `s` without its leading and trailing whitespace. */
  function Trim(s: string): (r: string)
    ensures Contains(s, r)
    ensures r == [] || (!IsSpace(r[0]) && !IsSpace(r[|r| - 1]))
    ensures r == [] <==> forall i :: 0 <= i < |s| ==> IsSpace(s[i])
  {
    TrimFacts(s);
    TrimRight(TrimLeft(s))
  }

  /** TrimLeft drops exactly the leading whitespace. */
  lemma {:induction false} TrimLeftFacts(s: string)
    ensures var r := TrimLeft(s);
      |r| <= |s| && r == s[|s| - |r|..] &&
      (forall i :: 0 <= i < |s| - |r| ==> IsSpace(s[i])) &&
      (r == [] || !IsSpace(r[0]))
  {
    if s != [] && IsSpace(s[0]) {
      TrimLeftFacts(s[1..]);
      var r := TrimLeft(s);
      forall i | 0 <= i < |s| - |r| ensures IsSpace(s[i]) {
        if i > 0 {
          assert s[i] == s[1..][i - 1];
        }
      }
    }
  }

  /** TrimRight drops exactly the trailing whitespace. */
  lemma {:induction false} TrimRightFacts(s: string)
    ensures var r := TrimRight(s);
      |r| <= |s| && r == s[..|r|] &&
      (forall i :: |r| <= i < |s| ==> IsSpace(s[i])) &&
      (r == [] || !IsSpace(r[|r| - 1]))
  {
    if s != [] && IsSpace(s[|s| - 1]) {
      TrimRightFacts(s[..|s| - 1]);
      var r := TrimRight(s);
      assert s[..|s| - 1][..|r|] == s[..|r|];
      forall i | |r| <= i < |s| ensures IsSpace(s[i]) {
        if i < |s| - 1 {
          assert s[i] == s[..|s| - 1][i];
        }
      }
    }
  }

  lemma TrimFacts(s: string)
    ensures var r := TrimRight(TrimLeft(s));
      Contains(s, r) &&
      (r == [] || (!IsSpace(r[0]) && !IsSpace(r[|r| - 1]))) &&
      (r == [] <==> forall i :: 0 <= i < |s| ==> IsSpace(s[i]))
  {
    var l := TrimLeft(s);
    var r := TrimRight(l);
    TrimLeftFacts(s);
    TrimRightFacts(l);
    assert s[|s| - |l|..][..|r|] == s[|s| - |l|..|s| - |l| + |r|];
    assert OccursAt(s, r, |s| - |l|);
    if r == [] {
      assert l == [];
    } else {
      assert r[0] == l[0];
    }
  }

  /** The non-empty pieces of `s` between occurrences of `sep`, in order;
      `cur` is the piece read so far. */
  function SplitFrom(s: string, sep: char, cur: string): (tokens: seq<string>)
    requires sep !in cur
    ensures forall t :: t in tokens ==> t != [] && sep !in t
  {
    if s == [] then (if cur == [] then [] else [cur])
    else if s[0] == sep then (if cur == [] then [] else [cur]) + SplitFrom(s[1..], sep, [])
    else SplitFrom(s[1..], sep, cur + [s[0]])
  }

  /** The separator-free, non-empty tokens of `s` split on `sep`. */
  function Split(s: string, sep: char): (tokens: seq<string>)
    ensures forall t :: t in tokens ==> t != [] && sep !in t
  {
    SplitFrom(s, sep, [])
  }

  /** The tokens joined with single separators (the inverse of Split on separator-free tokens). */
  function Join(ts: seq<string>, sep: char): string {
    if ts == [] then []
    else if |ts| == 1 then ts[0]
    else ts[0] + [sep] + Join(ts[1..], sep)
  }

  /** Separator-free text read into the current piece just lengthens it. */
  lemma {:induction false} SplitFromPiece(w: string, s: string, sep: char, cur: string)
    requires sep !in cur && sep !in w
    ensures SplitFrom(w + s, sep, cur) == SplitFrom(s, sep, cur + w)
    decreases |w|
  {
    if w != [] {
      assert (w + s)[0] == w[0] && (w + s)[1..] == w[1..] + s;
      SplitFromPiece(w[1..], s, sep, cur + [w[0]]);
      assert cur + [w[0]] + w[1..] == cur + w;
    } else {
      assert w + s == s && cur + w == cur;
    }
  }

  /** Splitting joined tokens gives the tokens back, when they are non-empty and separator-free. */
  lemma {:induction false} SplitJoin(ts: seq<string>, sep: char)
    requires forall t :: t in ts ==> t != [] && sep !in t
    ensures Split(Join(ts, sep), sep) == ts
    decreases |ts|
  {
    if |ts| == 1 {
      SplitFromPiece(ts[0], [], sep, []);
      assert ts[0] + [] == ts[0] && [] + ts[0] == ts[0];
    } else if |ts| > 1 {
      assert ts[0] in ts;
      var rest := Join(ts[1..], sep);
      SplitFromPiece(ts[0], [sep] + rest, sep, []);
      assert ts[0] + [sep] + rest == ts[0] + ([sep] + rest);
      assert ([sep] + rest)[1..] == rest;
      assert [] + ts[0] == ts[0];
      SplitJoin(ts[1..], sep);
      assert ts == [ts[0]] + ts[1..];
    }
  }

  function DigitChar(d: nat): (c: char)
    requires d < 10
    ensures '0' <= c <= '9'
  {
    ('0' as int + d) as char
  }

  /** std::to_string on an unsigned value: its decimal digits. */
  function NatToString(n: nat): (r: string)
    ensures |r| >= 1 && forall i :: 0 <= i < |r| ==> '0' <= r[i] <= '9'
  {
    if n < 10 then [DigitChar(n)] else NatToString(n / 10) + [DigitChar(n % 10)]
  }

  /** The value of a string of decimal digits, most significant first. */
  function DecimalValue(r: string): nat
    requires forall i :: 0 <= i < |r| ==> '0' <= r[i] <= '9'
  {
    if r == [] then 0 else DecimalValue(r[..|r| - 1]) * 10 + (r[|r| - 1] as int - '0' as int)
  }

  /** Reading back the digits of n gives n. */
  lemma {:induction false} NatToStringValue(n: nat)
    ensures DecimalValue(NatToString(n)) == n
  {
    if n >= 10 {
      NatToStringValue(n / 10);
      var r := NatToString(n);
      assert r[..|r| - 1] == NatToString(n / 10);
    }
  }

  /** Different numbers have different decimal strings. */
  lemma NatToStringInjective(i: nat, j: nat)
    ensures NatToString(i) == NatToString(j) ==> i == j
  {
    NatToStringValue(i);
    NatToStringValue(j);
  }

  lemma ContainsSelf(s: string)
    ensures Contains(s, s)
  {
    assert OccursAt(s, s, 0);
  }

  /** A factor of a factor is a factor. */
  lemma ContainsTrans(s: string, t: string, u: string)
    requires Contains(s, t) && Contains(t, u)
    ensures Contains(s, u)
  {
    var p :| 0 <= p <= |s| && OccursAt(s, t, p);
    var q :| 0 <= q <= |t| && OccursAt(t, u, q);
    forall i | 0 <= i < |u| ensures s[p + q + i] == u[i] {
      assert s[p + q + i] == s[p..p + |t|][q + i] == t[q + i];
      assert t[q + i] == t[q..q + |u|][i];
    }
    assert OccursAt(s, u, p + q);
  }

  /** Appending to a string keeps its factors. */
  lemma ContainsExtend(s: string, t: string, u: string)
    requires Contains(s, u)
    ensures Contains(s + t, u)
  {
    var p :| 0 <= p <= |s| && OccursAt(s, u, p);
    assert (s + t)[p..p + |u|] == s[p..p + |u|];
    assert OccursAt(s + t, u, p);
  }

  /** find locates a pattern exactly when the pattern occurs. */
  lemma FindFindsFactor(s: string, pat: string)
    ensures Find(s, pat, 0) >= 0 <==> Contains(s, pat)
  {
    if Contains(s, pat) {
      var p :| 0 <= p <= |s| && OccursAt(s, pat, p);
    }
  }

  /** A one-character pattern occurs exactly where that character stands. */
  lemma OccursAtChar(s: string, c: char, p: int)
    ensures OccursAt(s, [c], p) <==> 0 <= p < |s| && s[p] == c
  {
    if 0 <= p < |s| {
      assert s[p..p + 1] == [s[p]];
    }
  }

  /** `pat` occurs at p, and nowhere from `from` up to p. */
  predicate FirstAt(s: string, pat: string, from: nat, p: int) {
    from <= p && OccursAt(s, pat, p) && forall q :: from <= q < p ==> !OccursAt(s, pat, q)
  }

  /** find returns the first occurrence, and the first occurrence is what find returns. */
  lemma FindIsFirst(s: string, pat: string, from: nat, p: int)
    ensures Find(s, pat, from) == p <==> (p == -1 && forall q :: from <= q ==> !OccursAt(s, pat, q)) || FirstAt(s, pat, from, p)
  {
  }

  /** The first occurrence from `from` on is what find returns. */
  lemma FindOfFirst(s: string, pat: string, from: nat, p: int)
    requires FirstAt(s, pat, from, p)
    ensures Find(s, pat, from) == p
  {
  }

  /** An occurrence in b is an occurrence in a + b, shifted by |a|. */
  lemma OccursBehind(a: string, b: string, x: string, p: int)
    requires OccursAt(b, x, p)
    ensures OccursAt(a + b, x, |a| + p)
  {
    assert (a + b)[|a| + p..|a| + p + |x|] == b[p..p + |x|];
  }

  lemma CutTwice(s: string, a: nat, b: nat)
    requires a <= b <= |s|
    ensures s[..a] + s[a..b] + s[b..] == s
  {
  }

  lemma InsertNothing(s: string, pos: nat)
    requires pos <= |s|
    ensures Insert(s, pos, []) == s
  {
    assert s[..pos] + s[pos..] == s;
  }

  /** Two insertions at one position: the later text lands in front of the earlier. */
  lemma InsertTwice(s: string, pos: nat, a: string, b: string)
    requires pos <= |s|
    ensures Insert(Insert(s, pos, a), pos, b) == Insert(s, pos, b + a)
  {
    var t := Insert(s, pos, a);
    assert t[..pos] == s[..pos];
    assert t[pos..] == a + s[pos..];
  }

  /** Inserting at a later position, then at an earlier one. */
  lemma InsertInFront(s: string, p: nat, a: string, q: nat, b: string)
    requires q <= p <= |s|
    ensures Insert(Insert(s, p, a), q, b) == s[..q] + b + s[q..p] + a + s[p..]
  {
    var t := Insert(s, p, a);
    assert t[..q] == s[..q];
    assert t[q..] == s[q..p] + a + s[p..];
  }

  /** What a text continues with at p occurs at p. */
  lemma OccursInFront(s: string, p: nat, a: string, b: string)
    requires p <= |s| && s[p..] == a + b
    ensures OccursAt(s, a, p)
  {
    assert s[p..p + |a|] == s[p..][..|a|];
  }

  lemma Regroup(a: string, b: string, c: string)
    ensures (a + b) + c == a + (b + c)
  {
  }

  lemma PrefixExtend(a: string, b: string, c: string)
    requires a <= b
    ensures a <= b + c
  {
  }

  /** What follows a prefix inside a longer prefix occurs right after it. */
  lemma PrefixOccurs(s: string, a: string, b: string)
    requires a + b <= s
    ensures OccursAt(s, b, |a|)
  {
    assert s[|a|..|a| + |b|] == (a + b)[|a|..];
  }

  /** Inserting in front of a swapped piece: the text before the insertion point is kept. */
  lemma InsertBeforeSwap(s: string, q: nat, open: nat, close: nat, b: string, a: string)
    requires q <= open <= close < |s|
    ensures Insert(s[..open] + b + s[close + 1..], q, a) == s[..q] + a + s[q..open] + b + s[close + 1..]
  {
    var m := s[..open] + b + s[close + 1..];
    assert m[..q] == s[..q];
    assert m[q..] == s[q..open] + b + s[close + 1..];
  }
}
