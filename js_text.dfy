/** ASCII models of the JavaScript string built-ins that both graph builders
    rely on: `trim`, `replace(/\s+/g, ' ')`, `toUpperCase`, `toLowerCase`,
    `includes`, `substring`/`slice`, the legal-suffix regular expression with
    its `\b` word boundaries, and the punctuation character class. */
module JsText {

  /** The characters of JavaScript's `\s` class (and of `trim`) within ASCII. */
  predicate IsSpace(c: char) {
    c == ' ' || c == '\t' || c == '\n' || c == '\r' || c == '\U{000B}' || c == '\U{000C}'
  }

  /** No whitespace at either end. */
  predicate NoEdgeSpace(s: string) {
    |s| > 0 ==> !IsSpace(s[0]) && !IsSpace(s[|s| - 1])
  }

  /** No two adjacent whitespace characters. */
  predicate NoDoubleSpace(s: string) {
    forall i :: 0 <= i < |s| - 1 ==> !(IsSpace(s[i]) && IsSpace(s[i + 1]))
  }

  /** `t` occurs in `s` as a contiguous piece (`s.includes(t)`). */
  predicate Contains(s: string, t: string) {
    exists i :: 0 <= i <= |s| && t <= s[i..]
  }

  /** The characters of `s` with all whitespace removed. */
  function NonSpace(s: string): string {
    if s == [] then [] else (if IsSpace(s[0]) then [] else [s[0]]) + NonSpace(s[1..])
  }

  /** `NonSpace(s)` holds exactly the characters of `s` that are not whitespace. */
  lemma {:induction false} NonSpaceMembers(s: string, c: char)
    ensures c in NonSpace(s) <==> c in s && !IsSpace(c)
  {
    if s != [] {
      NonSpaceMembers(s[1..], c);
      assert s == [s[0]] + s[1..];
    }
  }

  // ---------------------------------------------------------------- trim

  function TrimStart(s: string): (r: string)
    ensures |r| <= |s| && r == s[|s| - |r|..]
    ensures r == [] || !IsSpace(r[0])
    ensures forall i :: 0 <= i < |s| - |r| ==> IsSpace(s[i])
  {
    if s != [] && IsSpace(s[0]) then TrimStart(s[1..]) else s
  }

  function TrimEnd(s: string): (r: string)
    ensures |r| <= |s| && r == s[..|r|]
    ensures r == [] || !IsSpace(r[|r| - 1])
    ensures forall i :: |r| <= i < |s| ==> IsSpace(s[i])
  {
    if s != [] && IsSpace(s[|s| - 1]) then TrimEnd(s[..|s| - 1]) else s
  }

  /** `String.prototype.trim`: the longest piece of `s` with no whitespace at
      its ends; everything cut away is whitespace. */
  function Trim(s: string): (r: string)
    ensures NoEdgeSpace(r)
    ensures Contains(s, r)
    ensures NonSpace(r) == NonSpace(s)
  {
    var a := TrimStart(s);
    var r := TrimEnd(a);
    assert Contains(s, r) by {
      assert r <= s[|s| - |a|..];
    }
    assert NoEdgeSpace(r) by {
      if r != [] {
        assert r[0] == a[0];
      }
    }
    assert NonSpace(r) == NonSpace(s) by {
      TrimStartKeeps(s);
      TrimEndKeeps(a);
    }
    r
  }

  /** A value without whitespace at its ends is its own trim. */
  lemma TrimClean(s: string)
    requires NoEdgeSpace(s)
    ensures Trim(s) == s
  {
  }

  lemma {:induction false} TrimStartKeeps(s: string)
    ensures NonSpace(TrimStart(s)) == NonSpace(s)
  {
    if s != [] && IsSpace(s[0]) {
      TrimStartKeeps(s[1..]);
    }
  }

  lemma TrimEndKeeps(a: string)
    ensures NonSpace(TrimEnd(a)) == NonSpace(a)
  {
    var r := TrimEnd(a);
    NonSpaceOfSpaces(a[|r|..]);
    NonSpaceAppend(r, a[|r|..]);
    assert a == r + a[|r|..];
  }

  lemma {:induction false} NonSpaceAppend(a: string, b: string)
    ensures NonSpace(a + b) == NonSpace(a) + NonSpace(b)
  {
    if a != [] {
      assert (a + b)[1..] == a[1..] + b;
      NonSpaceAppend(a[1..], b);
    } else {
      assert a + b == b;
    }
  }

  lemma {:induction false} NonSpaceOfSpaces(s: string)
    requires forall i :: 0 <= i < |s| ==> IsSpace(s[i])
    ensures NonSpace(s) == []
  {
    if s != [] {
      NonSpaceOfSpaces(s[1..]);
    }
  }

  lemma {:induction false} NonSpaceLength(s: string)
    ensures |NonSpace(s)| <= |s|
  {
    if s != [] {
      NonSpaceLength(s[1..]);
    }
  }

  /** A piece of a string without doubled whitespace has none either. */
  lemma NoDoubleSpaceOfPiece(s: string, r: string)
    requires NoDoubleSpace(s) && Contains(s, r)
    ensures NoDoubleSpace(r)
  {
    var i :| 0 <= i <= |s| && r <= s[i..];
    forall j | 0 <= j < |r| - 1
      ensures !(IsSpace(r[j]) && IsSpace(r[j + 1]))
    {
      assert r[j] == s[i + j] && r[j + 1] == s[i + j + 1];
    }
  }

  /** Every character of a piece of `s` is a character of `s`. */
  lemma PieceChars(s: string, r: string)
    requires Contains(s, r)
    ensures forall j :: 0 <= j < |r| ==> r[j] in s
  {
    var i :| 0 <= i <= |s| && r <= s[i..];
    forall j | 0 <= j < |r| ensures r[j] in s {
      assert r[j] == s[i + j];
    }
  }

  // ------------------------------------------------------- whitespace runs

  /** `s.replace(/\s+/g, ' ')`: each maximal run of whitespace becomes a single
      space; everything else is kept in place. */
  function CollapseSpaces(s: string): (r: string)
    ensures NoDoubleSpace(r)
    ensures |r| <= |s| && (r == [] <==> s == [])
    ensures r != [] ==> (IsSpace(r[0]) <==> IsSpace(s[0]))
    decreases |s|
  {
    if s == [] then []
    else if IsSpace(s[0]) then [' '] + CollapseSpaces(TrimStart(s[1..]))
    else [s[0]] + CollapseSpaces(s[1..])
  }

  /** The last character of the collapsed string is whitespace exactly when the
      last character of the input is. */
  lemma {:induction false} CollapseLast(s: string)
    requires s != []
    ensures var r := CollapseSpaces(s); IsSpace(r[|r| - 1]) <==> IsSpace(s[|s| - 1])
    decreases |s|
  {
    var r := CollapseSpaces(s);
    if IsSpace(s[0]) {
      var t := TrimStart(s[1..]);
      if t == [] {
        assert forall i :: 1 <= i < |s| ==> IsSpace(s[i]) by {
          forall i | 1 <= i < |s| ensures IsSpace(s[i]) { assert s[1..][i - 1] == s[i]; }
        }
      } else {
        CollapseLast(t);
        assert t[|t| - 1] == s[|s| - 1];
      }
    } else if |s| > 1 {
      CollapseLast(s[1..]);
    }
  }

  /** Collapsing only ever writes plain spaces; every other character comes from the input. */
  lemma {:induction false} CollapseChars(s: string)
    ensures var r := CollapseSpaces(s);
      forall i :: 0 <= i < |r| ==> if IsSpace(r[i]) then r[i] == ' ' else r[i] in s
    decreases |s|
  {
    if s != [] {
      if IsSpace(s[0]) {
        var t := TrimStart(s[1..]);
        CollapseChars(t);
        var r := CollapseSpaces(s);
        forall i | 0 < i < |r| ensures if IsSpace(r[i]) then r[i] == ' ' else r[i] in s {
          assert r[i] == CollapseSpaces(t)[i - 1];
          assert forall c :: c in t ==> c in s;
        }
      } else {
        CollapseChars(s[1..]);
        var r := CollapseSpaces(s);
        forall i | 0 < i < |r| ensures if IsSpace(r[i]) then r[i] == ' ' else r[i] in s {
          assert r[i] == CollapseSpaces(s[1..])[i - 1];
        }
      }
    }
  }

  /** Collapsing keeps every non-whitespace character, in order. */
  lemma {:induction false} CollapseKeepsText(s: string)
    ensures NonSpace(CollapseSpaces(s)) == NonSpace(s)
    decreases |s|
  {
    if s != [] {
      if IsSpace(s[0]) {
        var t := TrimStart(s[1..]);
        CollapseKeepsText(t);
        NonSpaceOfSpaces(s[1..][..|s| - 1 - |t|]);
        assert s[1..] == s[1..][..|s| - 1 - |t|] + t;
        NonSpaceAppend(s[1..][..|s| - 1 - |t|], t);
        NonSpaceAppend([' '], CollapseSpaces(t));
      } else {
        CollapseKeepsText(s[1..]);
        NonSpaceAppend([s[0]], CollapseSpaces(s[1..]));
      }
    }
  }

  /** Trimming first and collapsing after leaves clean whitespace. */
  lemma CollapseTrimmed(s: string)
    requires NoEdgeSpace(s)
    ensures NoEdgeSpace(CollapseSpaces(s)) && NoDoubleSpace(CollapseSpaces(s))
  {
    if s != [] {
      CollapseLast(s);
    }
  }

  /** A string whose whitespace is already single plain spaces is left alone by collapsing. */
  lemma {:induction false} CollapseFixpoint(s: string)
    requires NoDoubleSpace(s)
    requires forall i :: 0 <= i < |s| && IsSpace(s[i]) ==> s[i] == ' '
    ensures CollapseSpaces(s) == s
    decreases |s|
  {
    if s != [] {
      assert NoDoubleSpace(s[1..]) by {
        forall j | 0 <= j < |s[1..]| - 1 ensures !(IsSpace(s[1..][j]) && IsSpace(s[1..][j + 1])) {
          assert s[1..][j] == s[j + 1] && s[1..][j + 1] == s[j + 2];
        }
      }
      CollapseFixpoint(s[1..]);
      if IsSpace(s[0]) {
        assert |s| > 1 ==> !IsSpace(s[1]);
        assert TrimStart(s[1..]) == s[1..];
      }
      assert s == [s[0]] + s[1..];
    }
  }

  /** Collapsing and then trimming leaves clean whitespace. */
  lemma TrimCollapsed(s: string)
    ensures NoEdgeSpace(Trim(CollapseSpaces(s))) && NoDoubleSpace(Trim(CollapseSpaces(s)))
  {
    NoDoubleSpaceOfPiece(CollapseSpaces(s), Trim(CollapseSpaces(s)));
  }

  /** `replace(/\n/g, ' ')`. */
  function ReplaceNewlines(s: string): (r: string)
    ensures |r| == |s|
    ensures forall i :: 0 <= i < |s| ==> (s[i] == '\n' ==> r[i] == ' ') && (s[i] != '\n' ==> r[i] == s[i])
    ensures forall i :: 0 <= i < |s| ==> r[i] != '\n' && IsSpace(r[i]) == IsSpace(s[i])
    ensures forall i :: 0 <= i < |s| && !IsSpace(s[i]) ==> r[i] == s[i]
  {
    seq(|s|, i requires 0 <= i < |s| => if s[i] == '\n' then ' ' else s[i])
  }

  /** `a` and `b` differ at most in which whitespace character stands where. */
  predicate SameUpToSpaceKind(a: string, b: string) {
    |a| == |b| &&
    forall i :: 0 <= i < |a| ==> IsSpace(a[i]) == IsSpace(b[i]) && (!IsSpace(a[i]) ==> a[i] == b[i])
  }

  lemma {:induction false} TrimStartSameUpToSpaceKind(a: string, b: string)
    requires SameUpToSpaceKind(a, b)
    ensures SameUpToSpaceKind(TrimStart(a), TrimStart(b))
  {
    if a != [] && IsSpace(a[0]) {
      TrimStartSameUpToSpaceKind(a[1..], b[1..]);
    }
  }

  /** Collapsing cannot tell which whitespace character was used. */
  lemma {:induction false} CollapseSameUpToSpaceKind(a: string, b: string)
    requires SameUpToSpaceKind(a, b)
    ensures CollapseSpaces(a) == CollapseSpaces(b)
    decreases |a|
  {
    if a != [] {
      if IsSpace(a[0]) {
        TrimStartSameUpToSpaceKind(a[1..], b[1..]);
        CollapseSameUpToSpaceKind(TrimStart(a[1..]), TrimStart(b[1..]));
      } else {
        CollapseSameUpToSpaceKind(a[1..], b[1..]);
      }
    }
  }

  /** Replacing newlines by spaces before `replace(/\s+/g, ' ')` changes nothing. */
  lemma CollapseIgnoresNewlines(s: string)
    ensures CollapseSpaces(ReplaceNewlines(s)) == CollapseSpaces(s)
  {
    CollapseSameUpToSpaceKind(ReplaceNewlines(s), s);
  }

  /** Only whitespace. */
  predicate AllSpace(w: string) {
    forall i :: 0 <= i < |w| ==> IsSpace(w[i])
  }

  /** Leading whitespace in front of a non-space start is cut exactly. */
  lemma {:induction false} TrimStartOfSpaces(w: string, b: string)
    requires AllSpace(w) && (b == [] || !IsSpace(b[0]))
    ensures TrimStart(w + b) == b
    decreases |w|
  {
    if w == [] {
      assert w + b == b;
    } else {
      assert (w + b)[1..] == w[1..] + b;
      TrimStartOfSpaces(w[1..], b);
    }
  }

  /** `TrimStart` stops inside `x` when `x` holds a non-space. */
  lemma {:induction false} TrimStartAppend(x: string, y: string)
    requires TrimStart(x) != []
    ensures TrimStart(x + y) == TrimStart(x) + y
    decreases |x|
  {
    if IsSpace(x[0]) {
      assert (x + y)[1..] == x[1..] + y;
      TrimStartAppend(x[1..], y);
    }
  }

  /** One step of `CollapseSpaces`. */
  lemma CollapseStep(s: string)
    requires s != []
    ensures IsSpace(s[0]) ==> CollapseSpaces(s) == [' '] + CollapseSpaces(TrimStart(s[1..]))
    ensures !IsSpace(s[0]) ==> CollapseSpaces(s) == [s[0]] + CollapseSpaces(s[1..])
  {
  }

  lemma Assoc(x: string, y: string, z: string)
    ensures x + y + z == x + (y + z)
  {
  }

  /** Text ending in a non-space collapses on its own in front of whitespace. */
  lemma {:induction false} CollapseBefore(a: string, c: string)
    requires a == [] || !IsSpace(a[|a| - 1])
    requires c != [] && IsSpace(c[0])
    ensures CollapseSpaces(a + c) == CollapseSpaces(a) + CollapseSpaces(c)
    decreases |a|
  {
    if a == [] {
      assert a + c == c;
    } else {
      assert (a + c)[0] == a[0] && (a + c)[1..] == a[1..] + c;
      if IsSpace(a[0]) {
        var t := TrimStart(a[1..]);
        assert TrimStart(a[1..] + c) == t + c && (t == [] || !IsSpace(t[|t| - 1])) by {
          assert a[1..][|a| - 2] == a[|a| - 1];
          TrimStartAppend(a[1..], c);
          assert t[|t| - 1] == a[|a| - 1];
        }
        assert CollapseSpaces(a + c) == [' '] + CollapseSpaces(t + c) by {
          CollapseStep(a + c);
        }
        assert CollapseSpaces(a) == [' '] + CollapseSpaces(t) by {
          CollapseStep(a);
        }
        CollapseBefore(t, c);
        Assoc([' '], CollapseSpaces(t), CollapseSpaces(c));
      } else {
        assert CollapseSpaces(a + c) == [a[0]] + CollapseSpaces(a[1..] + c) by {
          CollapseStep(a + c);
        }
        assert CollapseSpaces(a) == [a[0]] + CollapseSpaces(a[1..]) by {
          CollapseStep(a);
        }
        CollapseBefore(a[1..], c);
        Assoc([a[0]], CollapseSpaces(a[1..]), CollapseSpaces(c));
      }
    }
  }

  /** Whitespace in front of a non-space start collapses to one space. */
  lemma CollapseSpacesHead(w: string, b: string)
    requires w != [] && AllSpace(w)
    requires b == [] || !IsSpace(b[0])
    ensures CollapseSpaces(w + b) == " " + CollapseSpaces(b)
  {
    var c := w + b;
    assert IsSpace(c[0]) && c[1..] == w[1..] + b;
    assert TrimStart(c[1..]) == b by {
      TrimStartOfSpaces(w[1..], b);
    }
    CollapseStep(c);
  }

  /** A maximal whitespace run becomes exactly one space, and the text on
      either side is collapsed on its own. */
  lemma CollapseRunOneSpace(a: string, w: string, b: string)
    requires w != [] && AllSpace(w)
    requires a == [] || !IsSpace(a[|a| - 1])
    requires b == [] || !IsSpace(b[0])
    ensures CollapseSpaces(a + w + b) == CollapseSpaces(a) + " " + CollapseSpaces(b)
  {
    var c := w + b;
    assert a + w + b == a + c by {
      Assoc(a, w, b);
    }
    assert CollapseSpaces(c) == " " + CollapseSpaces(b) by {
      CollapseSpacesHead(w, b);
    }
    assert CollapseSpaces(a + c) == CollapseSpaces(a) + CollapseSpaces(c) by {
      CollapseStep(c);
      CollapseBefore(a, c);
    }
    Assoc(CollapseSpaces(a), " ", CollapseSpaces(b));
  }

  // ------------------------------------------------------------- letter case

  function UpperChar(c: char): char {
    if 'a' <= c <= 'z' then (c as int - 32) as char else c
  }

  function LowerChar(c: char): char {
    if 'A' <= c <= 'Z' then (c as int + 32) as char else c
  }

  predicate NoLower(s: string) {
    forall i :: 0 <= i < |s| ==> !('a' <= s[i] <= 'z')
  }

  /** `toUpperCase` on ASCII: letters a-z become A-Z, nothing else moves. */
  function ToUpper(s: string): (r: string)
    ensures |r| == |s| && NoLower(r)
    ensures forall i :: 0 <= i < |s| && !('a' <= s[i] <= 'z') ==> r[i] == s[i]
    ensures forall i :: 0 <= i < |s| ==> LowerChar(r[i]) == LowerChar(s[i])
  {
    seq(|s|, i requires 0 <= i < |s| => UpperChar(s[i]))
  }

  /** `toLowerCase` on ASCII. */
  function ToLower(s: string): (r: string)
    ensures |r| == |s|
    ensures forall i :: 0 <= i < |s| ==> r[i] == LowerChar(s[i])
    ensures forall i :: 0 <= i < |s| ==> !('A' <= r[i] <= 'Z')
  {
    seq(|s|, i requires 0 <= i < |s| => LowerChar(s[i]))
  }

  /** A string is its own upper-casing exactly when it has no lower-case letter. */
  lemma UpperFixpoint(s: string)
    ensures ToUpper(s) == s <==> NoLower(s)
  {
    if NoLower(s) {
      assert forall i :: 0 <= i < |s| ==> ToUpper(s)[i] == s[i];
    }
  }

  /** Lower-casing forgets the case of the input: upper-casing first changes nothing. */
  lemma LowerOfUpper(s: string)
    ensures ToLower(ToUpper(s)) == ToLower(s)
  {
    assert forall i :: 0 <= i < |s| ==> ToLower(ToUpper(s))[i] == ToLower(s)[i];
  }

  /** Lower-casing both sides keeps a substring a substring. */
  lemma ContainsLower(s: string, t: string)
    requires Contains(s, t)
    ensures Contains(ToLower(s), ToLower(t))
  {
    var i :| 0 <= i <= |s| && t <= s[i..];
    assert ToLower(t) <= ToLower(s)[i..];
  }

  /** A piece of a piece is a piece. */
  lemma ContainsTrans(s: string, t: string, u: string)
    requires Contains(s, t) && Contains(t, u)
    ensures Contains(s, u)
  {
    var i :| 0 <= i <= |s| && t <= s[i..];
    var j :| 0 <= j <= |t| && u <= t[j..];
    assert u <= s[i + j..] by {
      assert forall k :: 0 <= k < |u| ==> u[k] == t[j + k] == s[i + j + k];
    }
  }

  // ------------------------------------------------ legal-suffix expression

  /** The alternatives of `\b(CO LTD|LTD|LLC|INC|GMBH|CORPORATION|CORP|PVT|PRIVATE|LIMITED)\b`,
      in the order the regular-expression engine tries them. */
  const LegalSuffixes: seq<string> :=
    ["CO LTD", "LTD", "LLC", "INC", "GMBH", "CORPORATION", "CORP", "PVT", "PRIVATE", "LIMITED"]

  /** The `\w` class: `[A-Za-z0-9_]`. */
  predicate IsWordChar(c: char) {
    'A' <= c <= 'Z' || 'a' <= c <= 'z' || '0' <= c <= '9' || c == '_'
  }

  predicate WordAt(s: string, i: int) {
    0 <= i < |s| && IsWordChar(s[i])
  }

  /** `\b` at position `i`: exactly one side of the position is a word character. */
  predicate Boundary(s: string, i: int) {
    WordAt(s, i - 1) != WordAt(s, i)
  }

  /** `\b w \b` matches `s` at position `i`. */
  predicate MatchesAt(s: string, i: nat, w: string) {
    i + |w| <= |s| && Boundary(s, i) && s[i..i + |w|] == w && Boundary(s, i + |w|)
  }

  /** The length of the first alternative that matches at `i`, trying them in
      order as a backtracking engine does. */
  function FirstMatch(s: string, i: nat, alts: seq<string>): (r: Option<nat>)
    requires NonEmptyWords(alts)
    ensures r.Some? ==> 0 < r.value && i + r.value <= |s|
  {
    if alts == [] then None
    else if MatchesAt(s, i, alts[0]) then Some(|alts[0]|)
    else FirstMatch(s, i, alts[1..])
  }

  /** The alternation matches exactly when some alternative does, and the
      length taken is that of the leftmost one that does. */
  lemma {:induction false} FirstMatchFacts(s: string, i: nat, alts: seq<string>)
    requires NonEmptyWords(alts)
    ensures var r := FirstMatch(s, i, alts);
            && (r.Some? <==> exists k :: 0 <= k < |alts| && MatchesAt(s, i, alts[k]))
            && (r.Some? ==> exists k :: 0 <= k < |alts| && MatchesAt(s, i, alts[k]) && |alts[k]| == r.value &&
                                        forall j :: 0 <= j < k ==> !MatchesAt(s, i, alts[j]))
  {
    if alts != [] && !MatchesAt(s, i, alts[0]) {
      FirstMatchFacts(s, i, alts[1..]);
      var r := FirstMatch(s, i, alts[1..]);
      assert forall k :: 1 <= k < |alts| ==> alts[k] == alts[1..][k - 1];
      if r.Some? {
        var k :| 0 <= k < |alts[1..]| && MatchesAt(s, i, alts[1..][k]) && |alts[1..][k]| == r.value &&
                 forall j :: 0 <= j < k ==> !MatchesAt(s, i, alts[1..][j]);
        assert MatchesAt(s, i, alts[k + 1]) && |alts[k + 1]| == r.value;
        assert forall j :: 0 <= j < k + 1 ==> !MatchesAt(s, i, alts[j]) by {
          forall j | 0 <= j < k + 1 ensures !MatchesAt(s, i, alts[j]) {
            if j > 0 { assert alts[j] == alts[1..][j - 1]; }
          }
        }
      }
    }
  }

  datatype Option<T> = None | Some(value: T)

  /** Every alternative is non-empty, so a match always advances the scan. */
  lemma LegalSuffixesNonEmpty()
    ensures NonEmptyWords(LegalSuffixes)
  {
  }

  /** The length of the legal suffix the regular expression matches at `i`, if any. */
  function SuffixAt(s: string, i: nat): (r: Option<nat>)
    ensures r.Some? ==> 0 < r.value && i + r.value <= |s|
  {
    LegalSuffixesNonEmpty();
    FirstMatch(s, i, LegalSuffixes)
  }

  /** Every alternative of `alts` is non-empty. */
  predicate NonEmptyWords(alts: seq<string>) {
    forall k :: 0 <= k < |alts| ==> alts[k] != []
  }

  /** The global replacement by `''` of the alternatives `alts`, scanning from
      position `i` of the original string: a match is dropped and the scan
      resumes after it; otherwise one character is copied. The boundaries are
      always judged on the original. */
  function StripFrom(s: string, i: nat, alts: seq<string>): (r: string)
    requires i <= |s| && NonEmptyWords(alts)
    ensures |r| <= |s| - i
    decreases |s| - i
  {
    if i == |s| then []
    else
      var m := FirstMatch(s, i, alts);
      if m.Some? then StripFrom(s, i + m.value, alts) else [s[i]] + StripFrom(s, i + 1, alts)
  }

  /** Removing matches only drops characters. */
  lemma {:induction false} StripFromChars(s: string, i: nat, alts: seq<string>)
    requires i <= |s| && NonEmptyWords(alts)
    ensures forall c :: c in StripFrom(s, i, alts) ==> c in s[i..]
    decreases |s| - i
  {
    if i < |s| {
      var m := FirstMatch(s, i, alts);
      var k := if m.Some? then i + m.value else i + 1;
      StripFromChars(s, k, alts);
      assert s[i..] == s[i..k] + s[k..];
      if m.None? {
        assert s[i..k] == [s[i]];
      }
    }
  }

  /** Where nothing matches, nothing is removed. */
  lemma {:induction false} StripFromNoMatch(s: string, i: nat, alts: seq<string>)
    requires i <= |s| && NonEmptyWords(alts)
    ensures (forall j :: i <= j < |s| ==> FirstMatch(s, j, alts).None?) ==> StripFrom(s, i, alts) == s[i..]
    decreases |s| - i
  {
    if i < |s| && forall j :: i <= j < |s| ==> FirstMatch(s, j, alts).None? {
      StripFromNoMatch(s, i + 1, alts);
      assert s[i..] == [s[i]] + s[i + 1..];
    }
  }

  /** `s.replace(/\b(CO LTD|...|LIMITED)\b/g, '')`. */
  function StripLegalSuffixes(s: string): (r: string)
    ensures |r| <= |s|
    ensures forall c :: c in r ==> c in s
    ensures (forall j :: 0 <= j < |s| ==> SuffixAt(s, j).None?) ==> r == s
  {
    LegalSuffixesNonEmpty();
    assert s[0..] == s;
    assert forall j :: SuffixAt(s, j) == FirstMatch(s, j, LegalSuffixes);
    StripFromChars(s, 0, LegalSuffixes);
    StripFromNoMatch(s, 0, LegalSuffixes);
    StripFrom(s, 0, LegalSuffixes)
  }

  /** An alternative that starts and ends with a word character and never has
      two non-word characters side by side: `\b` on both sides then makes its
      occurrences whole words. */
  predicate WordShaped(w: string) {
    w != [] && IsWordChar(w[0]) && IsWordChar(w[|w| - 1]) &&
    forall t :: 0 <= t < |w| - 1 ==> IsWordChar(w[t]) || IsWordChar(w[t + 1])
  }

  predicate AllWordShaped(alts: seq<string>) {
    NonEmptyWords(alts) && forall k :: 0 <= k < |alts| ==> WordShaped(alts[k])
  }

  lemma LegalSuffixesShaped()
    ensures AllWordShaped(LegalSuffixes)
  {
    assert WordShaped("CO LTD");
  }

  /** The positions of `s`, from `i` on, whose characters the replacement keeps. */
  function KeptFrom(s: string, i: nat, alts: seq<string>): (p: seq<nat>)
    requires i <= |s| && NonEmptyWords(alts)
    decreases |s| - i
  {
    if i == |s| then []
    else
      var m := FirstMatch(s, i, alts);
      if m.Some? then KeptFrom(s, i + m.value, alts) else [i] + KeptFrom(s, i + 1, alts)
  }

  /** One step of the scan, for the kept positions and for the result. */
  lemma KeptStep(s: string, i: nat, alts: seq<string>)
    requires i < |s| && NonEmptyWords(alts)
    ensures var m := FirstMatch(s, i, alts);
            && (m.Some? ==> KeptFrom(s, i, alts) == KeptFrom(s, i + m.value, alts) &&
                            StripFrom(s, i, alts) == StripFrom(s, i + m.value, alts))
            && (m.None? ==> KeptFrom(s, i, alts) == [i] + KeptFrom(s, i + 1, alts) &&
                            StripFrom(s, i, alts) == [s[i]] + StripFrom(s, i + 1, alts))
  {
  }

  /** The replacement copies, in order, exactly the characters at the kept
      positions, and no alternative matches at a kept position. */
  lemma {:induction false} StripFromKept(s: string, i: nat, alts: seq<string>)
    requires i <= |s| && NonEmptyWords(alts)
    ensures var r, p := StripFrom(s, i, alts), KeptFrom(s, i, alts);
            && |p| == |r|
            && (forall k :: 0 <= k < |p| ==> i <= p[k] < |s| && r[k] == s[p[k]] && FirstMatch(s, p[k], alts).None?)
            && (forall k :: 0 <= k < |p| - 1 ==> p[k] < p[k + 1])
    decreases |s| - i
  {
    if i < |s| {
      var m := FirstMatch(s, i, alts);
      KeptStep(s, i, alts);
      if m.Some? {
        StripFromKept(s, i + m.value, alts);
      } else {
        StripFromKept(s, i + 1, alts);
        var r, p := StripFrom(s, i, alts), KeptFrom(s, i, alts);
        var r', p' := StripFrom(s, i + 1, alts), KeptFrom(s, i + 1, alts);
        assert forall k :: 0 < k < |p| ==> p[k] == p'[k - 1] && r[k] == r'[k - 1];
      }
    }
  }

  /** Every character the replacement drops lies inside a whole-word
      occurrence of one of the alternatives. */
  lemma {:induction false} StripFromDropped(s: string, i: nat, alts: seq<string>)
    requires i <= |s| && NonEmptyWords(alts)
    ensures forall q :: i <= q < |s| && q !in KeptFrom(s, i, alts) ==>
              exists a: nat, k :: 0 <= k < |alts| && a <= q < a + |alts[k]| && MatchesAt(s, a, alts[k])
    decreases |s| - i
  {
    if i < |s| {
      var m := FirstMatch(s, i, alts);
      if m.Some? {
        StripFromDropped(s, i + m.value, alts);
        FirstMatchFacts(s, i, alts);
        var k :| 0 <= k < |alts| && MatchesAt(s, i, alts[k]) && |alts[k]| == m.value;
        KeptStep(s, i, alts);
        forall q | i <= q < |s| && q !in KeptFrom(s, i, alts)
          ensures exists a: nat, k :: 0 <= k < |alts| && a <= q < a + |alts[k]| && MatchesAt(s, a, alts[k])
        {
          if q < i + m.value {
            assert i <= q < i + |alts[k]| && MatchesAt(s, i, alts[k]);
          }
        }
      } else {
        StripFromDropped(s, i + 1, alts);
      }
    }
  }

  /** An occurrence the scan drops starts and ends with a word character and
      has a non-word character (or an end of the string) on either side. */
  lemma DroppedEdges(s: string, i: nat, alts: seq<string>)
    requires i <= |s| && AllWordShaped(alts) && FirstMatch(s, i, alts).Some?
    ensures var m := FirstMatch(s, i, alts).value;
            WordAt(s, i) && !WordAt(s, i - 1) && !WordAt(s, i + m)
  {
    var m := FirstMatch(s, i, alts).value;
    FirstMatchFacts(s, i, alts);
    var k :| 0 <= k < |alts| && MatchesAt(s, i, alts[k]) && |alts[k]| == m;
    var w := alts[k];
    assert WordShaped(w);
    assert s[i] == s[i..i + m][0] == w[0];
    assert s[i + m - 1] == s[i..i + m][m - 1] == w[m - 1];
  }

  /** Scanning from `i` keeps `p`: when it drops characters before its first
      kept position, a non-word character (or an end) lies on either side. */
  predicate StartsAfterNonWord(s: string, i: int, p: seq<nat>) {
    && (p == [] ==> i == |s| || !WordAt(s, i - 1))
    && (p != [] ==> p[0] == i || (!WordAt(s, i - 1) && !WordAt(s, p[0])))
  }

  /** Before the first kept position, only non-word characters border what
      the scan dropped. */
  lemma {:induction false} KeptStart(s: string, i: nat, alts: seq<string>)
    requires i <= |s| && AllWordShaped(alts)
    ensures StartsAfterNonWord(s, i, KeptFrom(s, i, alts))
    decreases |s| - i
  {
    if i < |s| {
      var m := FirstMatch(s, i, alts);
      KeptStep(s, i, alts);
      if m.Some? {
        KeptStart(s, i + m.value, alts);
        DroppedEdges(s, i, alts);
      }
    }
  }

  /** After the last kept position, only a non-word character borders what
      the scan dropped. */
  lemma {:induction false} KeptEnd(s: string, i: nat, alts: seq<string>)
    requires i <= |s| && AllWordShaped(alts)
    ensures var p := KeptFrom(s, i, alts);
            p != [] ==> p[|p| - 1] == |s| - 1 || !WordAt(s, p[|p| - 1])
    decreases |s| - i
  {
    if i < |s| {
      var m := FirstMatch(s, i, alts);
      KeptStep(s, i, alts);
      if m.Some? {
        KeptEnd(s, i + m.value, alts);
      } else {
        KeptEnd(s, i + 1, alts);
        var p, p' := KeptFrom(s, i, alts), KeptFrom(s, i + 1, alts);
        if p' == [] {
          KeptStart(s, i + 1, alts);
        } else {
          assert p[|p| - 1] == p'[|p'| - 1];
        }
      }
    }
  }

  /** Between two kept positions the scan dropped nothing, or it dropped an
      occurrence bordered by non-word characters. */
  lemma {:induction false} KeptGaps(s: string, i: nat, alts: seq<string>)
    requires i <= |s| && AllWordShaped(alts)
    ensures var p := KeptFrom(s, i, alts);
            forall k :: 0 <= k < |p| - 1 ==> p[k + 1] == p[k] + 1 || (!WordAt(s, p[k]) && !WordAt(s, p[k + 1]))
    decreases |s| - i
  {
    if i < |s| {
      var m := FirstMatch(s, i, alts);
      KeptStep(s, i, alts);
      if m.Some? {
        KeptGaps(s, i + m.value, alts);
      } else {
        KeptGaps(s, i + 1, alts);
        KeptStart(s, i + 1, alts);
        var p, p' := KeptFrom(s, i, alts), KeptFrom(s, i + 1, alts);
        assert forall k :: 0 < k < |p| ==> p[k] == p'[k - 1];
      }
    }
  }

  /** Kept positions of consecutive characters one of which is a word
      character are consecutive in the original. */
  lemma {:induction false} KeptRun(s: string, p: seq<nat>, j: nat, n: nat)
    requires forall k :: 0 <= k < |p| ==> p[k] < |s|
    requires forall k :: 0 <= k < |p| - 1 ==> p[k + 1] == p[k] + 1 || (!WordAt(s, p[k]) && !WordAt(s, p[k + 1]))
    requires j + n <= |p|
    requires forall k :: j <= k < j + n - 1 ==> WordAt(s, p[k]) || WordAt(s, p[k + 1])
    ensures forall k :: j <= k < j + n ==> p[k] == p[j] + (k - j)
    decreases n
  {
    if n > 1 {
      KeptRun(s, p, j, n - 1);
      assert WordAt(s, p[j + n - 2]) || WordAt(s, p[j + n - 1]);
    }
  }

  /** `r` consists of the characters of `s` at the positions `p`. */
  predicate CopiedFrom(r: string, s: string, p: seq<nat>) {
    |p| == |r| && forall k :: 0 <= k < |p| ==> p[k] < |s| && r[k] == s[p[k]]
  }

  /** Wherever `p` skips characters of `s` (including before its first and
      after its last position) the characters on both sides are non-word. */
  predicate SkipsBetweenNonWords(s: string, p: seq<nat>) {
    && (p != [] ==> p[0] == 0 || !WordAt(s, p[0]))
    && (p != [] ==> p[|p| - 1] == |s| - 1 || !WordAt(s, p[|p| - 1]))
    && (forall k :: 0 <= k < |p| - 1 ==> p[k + 1] == p[k] + 1 || (!WordAt(s, p[k]) && !WordAt(s, p[k + 1])))
  }

  /** The characters of an occurrence in `r` were copied from consecutive positions. */
  lemma PullRun(r: string, s: string, p: seq<nat>, j: nat, w: string)
    requires CopiedFrom(r, s, p) && SkipsBetweenNonWords(s, p)
    requires WordShaped(w) && MatchesAt(r, j, w)
    ensures j + |w| <= |p| && forall k :: j <= k < j + |w| ==> p[k] == p[j] + (k - j)
  {
    var n := |w|;
    forall k | j <= k < j + n - 1 ensures WordAt(s, p[k]) || WordAt(s, p[k + 1]) {
      assert r[k] == r[j..j + n][k - j] && r[k + 1] == r[j..j + n][k + 1 - j];
    }
    KeptRun(s, p, j, n);
  }

  /** The text of an occurrence in `r` stands in `s` where its first character came from. */
  lemma PullText(r: string, s: string, p: seq<nat>, j: nat, w: string)
    requires CopiedFrom(r, s, p) && SkipsBetweenNonWords(s, p)
    requires WordShaped(w) && MatchesAt(r, j, w)
    ensures j + |w| <= |p| && p[j + |w| - 1] == p[j] + |w| - 1
    ensures p[j] + |w| <= |s| && s[p[j]..p[j] + |w|] == w
  {
    PullRun(r, s, p, j, w);
    var n, q := |w|, p[j];
    assert p[j + n - 1] == q + n - 1;
    forall t | 0 <= t < n ensures s[q..q + n][t] == w[t] {
      assert p[j + t] == q + t;
      assert r[j + t] == r[j..j + n][t];
    }
  }

  /** The character before an occurrence in `r` was a non-word character in `s` too. */
  lemma PullLeft(r: string, s: string, p: seq<nat>, j: nat, w: string)
    requires CopiedFrom(r, s, p) && SkipsBetweenNonWords(s, p)
    requires WordShaped(w) && MatchesAt(r, j, w)
    ensures !WordAt(s, p[j] as int - 1)
  {
    assert r[j] == w[0];
    assert WordAt(s, p[j]);
    if j > 0 {
      assert !WordAt(r, j - 1);
      assert p[j] == p[j - 1] + 1;
    } else {
      assert p[j] == 0;
    }
  }

  /** The character after an occurrence in `r` was a non-word character in `s` too. */
  lemma PullRight(r: string, s: string, p: seq<nat>, j: nat, w: string)
    requires CopiedFrom(r, s, p) && SkipsBetweenNonWords(s, p)
    requires WordShaped(w) && MatchesAt(r, j, w)
    requires j + |w| <= |p| && p[j + |w| - 1] == p[j] + |w| - 1
    ensures !WordAt(s, p[j] + |w|)
  {
    var e := j + |w| - 1;
    assert r[e] == r[j..j + |w|][|w| - 1] == w[|w| - 1];
    assert WordAt(s, p[e]);
    if e < |p| - 1 {
      assert !WordAt(r, e + 1);
      assert p[e + 1] == p[e] + 1;
    } else {
      assert p[e] == |s| - 1;
    }
  }

  lemma KeptShape(s: string, alts: seq<string>)
    requires AllWordShaped(alts)
    ensures CopiedFrom(StripFrom(s, 0, alts), s, KeptFrom(s, 0, alts))
    ensures SkipsBetweenNonWords(s, KeptFrom(s, 0, alts))
  {
    StripFromKept(s, 0, alts);
    KeptStart(s, 0, alts);
    KeptEnd(s, 0, alts);
    KeptGaps(s, 0, alts);
  }

  /** A whole-word occurrence in the result was a whole-word occurrence in the
      original, at the position its first character was copied from. */
  lemma MatchPullsBack(s: string, alts: seq<string>, j: nat, w: string)
    requires AllWordShaped(alts) && WordShaped(w)
    ensures var r, p := StripFrom(s, 0, alts), KeptFrom(s, 0, alts);
            MatchesAt(r, j, w) ==> j < |p| && MatchesAt(s, p[j], w)
  {
    var r, p := StripFrom(s, 0, alts), KeptFrom(s, 0, alts);
    KeptShape(s, alts);
    if MatchesAt(r, j, w) {
      PullText(r, s, p, j, w);
      PullLeft(r, s, p, j, w);
      PullRight(r, s, p, j, w);
    }
  }

  /** After the replacement no alternative is left as a whole word. */
  lemma StripLeavesNoMatch(s: string, alts: seq<string>)
    requires AllWordShaped(alts)
    ensures forall j: nat :: FirstMatch(StripFrom(s, 0, alts), j, alts).None?
  {
    var r, p := StripFrom(s, 0, alts), KeptFrom(s, 0, alts);
    StripFromKept(s, 0, alts);
    forall j: nat ensures FirstMatch(r, j, alts).None? {
      FirstMatchFacts(r, j, alts);
      forall k | 0 <= k < |alts| ensures !MatchesAt(r, j, alts[k]) {
        MatchPullsBack(s, alts, j, alts[k]);
        if j < |p| {
          FirstMatchFacts(s, p[j], alts);
        }
      }
    }
  }

  /** No legal suffix survives as a whole word. */
  lemma LegalSuffixesRemoved(s: string)
    ensures forall j: nat :: SuffixAt(StripLegalSuffixes(s), j).None?
  {
    LegalSuffixesShaped();
    StripLeavesNoMatch(s, LegalSuffixes);
  }

  // ------------------------------------------------------------ punctuation

  /** The class `[.,&\-\/\\()]`. */
  predicate IsPunct(c: char) {
    c == '.' || c == ',' || c == '&' || c == '-' || c == '/' || c == '\\' || c == '(' || c == ')'
  }

  predicate NoPunct(s: string) {
    forall i :: 0 <= i < |s| ==> !IsPunct(s[i])
  }

  /** `replace(/[.,&\-\/\\()]/g, ' ')`: each punctuation character becomes a space. */
  function ReplacePunct(s: string): (r: string)
    ensures |r| == |s| && NoPunct(r)
    ensures forall i :: 0 <= i < |s| ==> (IsPunct(s[i]) ==> r[i] == ' ') && (!IsPunct(s[i]) ==> r[i] == s[i])
  {
    seq(|s|, i requires 0 <= i < |s| => if IsPunct(s[i]) then ' ' else s[i])
  }

  // ------------------------------------------------------------- prefixes

  /** `s.substring(0, n)` / `s.slice(0, n)` for `n >= 0`. */
  function Prefix(s: string, n: nat): (r: string)
    ensures |r| == if n <= |s| then n else |s|
    ensures r <= s
  {
    if n <= |s| then s[..n] else s
  }

  // ------------------------------------------------------ company names

  /** The company-name chain both components apply to an upper-cased value:
      legal suffixes removed as whole words, punctuation turned into spaces,
      whitespace collapsed and trimmed. */
  function CompanyCore(s: string): (r: string)
    requires NoLower(s)
    ensures NoLower(r) && NoPunct(r)
    ensures NoEdgeSpace(r) && NoDoubleSpace(r)
  {
    var a := StripLegalSuffixes(s);
    var b := ReplacePunct(a);
    var c := CollapseSpaces(b);
    var r := Trim(c);
    CompanyCoreChars(s, a, b, c);
    TrimCollapsed(b);
    PieceChars(c, r);
    CharsFrom(r, c);
    r
  }

  // ----------------------------------------- suffixes through the cleanup

  /** A non-empty string of word characters only. */
  predicate AllWord(w: string) {
    w != [] && forall t :: 0 <= t < |w| ==> IsWordChar(w[t])
  }

  /** Turning punctuation into spaces creates no whole word. */
  lemma PunctPullsBack(x: string, j: nat, w: string)
    requires AllWord(w)
    ensures MatchesAt(ReplacePunct(x), j, w) ==> MatchesAt(x, j, w)
  {
    var r := ReplacePunct(x);
    assert forall i :: WordAt(r, i) == WordAt(x, i);
    if MatchesAt(r, j, w) {
      forall t | 0 <= t < |w| ensures x[j..j + |w|][t] == w[t] {
        assert r[j..j + |w|][t] == w[t];
        assert r[j + t] == w[t];
      }
    }
  }

  /** Dropping the first character keeps an occurrence that does not start
      there; one at position 1 has a non-word character before it. */
  lemma MatchesInTail(c: string, j: nat, w: string)
    requires AllWord(w) && j > 0 && MatchesAt(c, j, w)
    ensures MatchesAt(c[1..], j - 1, w)
    ensures j == 1 ==> !WordAt(c, 0)
  {
    var t := c[1..];
    assert t[j - 1..j - 1 + |w|] == c[j..j + |w|];
    assert t[j - 1] == c[j] == c[j..j + |w|][0] == w[0];
    assert j > 1 ==> t[j - 2] == c[j - 1];
    assert j - 1 + |w| < |t| ==> t[j - 1 + |w|] == c[j + |w|];
  }

  /** An occurrence in a suffix of `y` stands in `y`, provided the character
      before the suffix does not join it. */
  lemma MatchShift(y: string, d: nat, j: nat, w: string)
    requires AllWord(w) && d <= |y| && MatchesAt(y[d..], j, w)
    requires j == 0 && d > 0 ==> !WordAt(y, d - 1)
    ensures MatchesAt(y, j + d, w)
  {
    var t, n := y[d..], |w|;
    assert y[j + d..j + d + n] == t[j..j + n];
    assert y[j + d] == t[j] == t[j..j + n][0] == w[0];
    assert j > 0 ==> y[j + d - 1] == t[j - 1];
    assert j + n < |t| ==> y[j + d + n] == t[j + n];
  }

  /** A whole word at position 1 has a non-word character before it. */
  lemma HeadBeforeMatch(c: string, w: string)
    requires AllWord(w) && MatchesAt(c, 1, w)
    ensures !WordAt(c, 0)
  {
    assert c[1] == c[1..1 + |w|][0] == w[0];
  }

  /** One step of `CollapseSpaces`, as its first character and its tail. */
  lemma CollapseHeadTail(s: string)
    requires s != []
    ensures CollapseSpaces(s) != []
    ensures IsSpace(s[0]) ==>
              CollapseSpaces(s)[0] == ' ' && CollapseSpaces(s)[1..] == CollapseSpaces(TrimStart(s[1..]))
    ensures !IsSpace(s[0]) ==>
              CollapseSpaces(s)[0] == s[0] && CollapseSpaces(s)[1..] == CollapseSpaces(s[1..])
  {
    CollapseStep(s);
  }

  /** Past a leading non-space, an occurrence after the start of the
      collapsed string is one position further on in the collapsed tail. */
  lemma CollapseWordDown(y: string, j: nat, w: string)
    requires AllWord(w) && y != [] && !IsSpace(y[0]) && j > 0
    requires MatchesAt(CollapseSpaces(y), j, w)
    ensures MatchesAt(CollapseSpaces(y[1..]), j - 1, w)
    ensures j == 1 ==> !WordAt(y, 0)
  {
    CollapseHeadTail(y);
    MatchesInTail(CollapseSpaces(y), j, w);
  }

  /** An occurrence in a string that starts with a non-word character stands,
      one position earlier, in its tail. */
  lemma MatchPastNonWord(c: string, ct: string, j: nat, w: string)
    requires AllWord(w) && c != [] && !IsWordChar(c[0]) && c[1..] == ct
    requires MatchesAt(c, j, w)
    ensures j > 0 && MatchesAt(ct, j - 1, w)
  {
    assert j != 0 by {
      assert c[j] == c[j..j + |w|][0] == w[0];
      assert IsWordChar(w[0]);
    }
    MatchesInTail(c, j, w);
  }

  /** What a leading whitespace run leaves: the rest stands at offset `d`,
      after a whitespace character. */
  lemma TrimmedRest(y: string, d: nat)
    requires y != [] && IsSpace(y[0]) && d == |y| - |TrimStart(y[1..])|
    ensures 0 < d && TrimStart(y[1..]) == y[d..] && IsSpace(y[d - 1])
  {
    var t := TrimStart(y[1..]);
    assert y[1..][d - 1..] == y[d..];
    if d > 1 {
      assert y[d - 1] == y[1..][d - 2];
    }
  }

  /** An occurrence after a leading whitespace run stands in `y`. */
  lemma CollapseSpaceUp(y: string, d: nat, j': nat, w: string)
    requires AllWord(w) && y != [] && IsSpace(y[0])
    requires d == |y| - |TrimStart(y[1..])|
    requires MatchesAt(TrimStart(y[1..]), j', w)
    ensures MatchesAt(y, j' + d, w)
  {
    TrimmedRest(y, d);
    MatchShift(y, d, j', w);
  }

  /** Collapsing whitespace creates no whole word: an occurrence in the
      collapsed string stands in the original too, at its start exactly when
      it stands at the start of the collapsed string. */
  lemma {:induction false} CollapsePullsBack(y: string, j: nat, w: string)
    requires AllWord(w)
    ensures MatchesAt(CollapseSpaces(y), j, w) ==>
              exists j': nat :: MatchesAt(y, j', w) && (j == 0 <==> j' == 0)
    decreases |y|
  {
    if MatchesAt(CollapseSpaces(y), j, w) {
      if !IsSpace(y[0]) {
        if j == 0 {
          CollapseHeadPullsBack(y, w);
        } else {
          CollapseWordDown(y, j, w);
          CollapsePullsBack(y[1..], j - 1, w);
          var j': nat :| MatchesAt(y[1..], j', w) && (j - 1 == 0 <==> j' == 0);
          MatchShift(y, 1, j', w);
        }
      } else {
        var t := TrimStart(y[1..]);
        CollapseHeadTail(y);
        MatchPastNonWord(CollapseSpaces(y), CollapseSpaces(t), j, w);
        CollapsePullsBack(t, j - 1, w);
        var j': nat :| MatchesAt(t, j', w) && (j - 1 == 0 <==> j' == 0);
        CollapseSpaceUp(y, |y| - |t|, j', w);
      }
    }
  }

  /** An occurrence at the start of the collapsed string stands at the start
      of a value that begins with a non-space. */
  lemma {:induction false} CollapseHeadPullsBack(y: string, w: string)
    requires AllWord(w) && MatchesAt(CollapseSpaces(y), 0, w)
    ensures MatchesAt(y, 0, w)
    decreases |w|
  {
    var c := CollapseSpaces(y);
    var n := |w|;
    assert c[0] == c[0..n][0] == w[0];
    var y' := y[1..];
    var c' := CollapseSpaces(y');
    assert !IsSpace(y[0]) && c == [y[0]] + c';
    if n == 1 {
      assert !WordAt(y, 1) by {
        if c' != [] {
          assert !WordAt(c, 1);
          assert IsSpace(c'[0]) <==> IsSpace(y'[0]);
          assert !IsSpace(y'[0]) ==> c'[0] == y'[0];
        }
      }
      assert y[0..1] == [y[0]] == w;
    } else {
      var w' := w[1..];
      assert forall t :: 0 <= t < |w'| ==> w'[t] == w[t + 1];
      assert c'[0..n - 1] == c[1..n] == w';
      assert MatchesAt(c', 0, w');
      CollapseHeadPullsBack(y', w');
      assert y[0..n] == [y[0]] + y'[0..n - 1];
      assert w == [w[0]] + w';
    }
  }

  /** Cutting a whitespace-ended prefix creates no whole word. */
  lemma SpacedSuffixPullsBack(y: string, a: string, j: nat, w: string)
    requires AllWord(w) && |a| <= |y| && a == y[|y| - |a|..]
    requires |a| < |y| ==> IsSpace(y[|y| - |a| - 1])
    ensures MatchesAt(a, j, w) ==> MatchesAt(y, j + (|y| - |a|), w)
  {
    if MatchesAt(a, j, w) {
      MatchShift(y, |y| - |a|, j, w);
    }
  }

  /** What `TrimStart` cuts ends in whitespace. */
  lemma TrimStartSpaced(y: string)
    ensures |TrimStart(y)| < |y| ==> IsSpace(y[|y| - |TrimStart(y)| - 1])
  {
  }

  /** Cutting trailing whitespace creates no whole word. */
  lemma TrimEndPullsBack(a: string, j: nat, w: string)
    requires AllWord(w)
    ensures MatchesAt(TrimEnd(a), j, w) ==> MatchesAt(a, j, w)
  {
    var r := TrimEnd(a);
    if MatchesAt(r, j, w) {
      var n := |w|;
      assert a[j..j + n] == r[j..j + n];
      assert !WordAt(a, j + n) by {
        if j + n < |a| {
          if j + n < |r| {
            assert a[j + n] == r[j + n];
          } else {
            assert IsSpace(a[j + n]);
          }
        }
      }
      assert j > 0 ==> a[j - 1] == r[j - 1];
      assert a[j] == r[j];
    }
  }

  /** Every legal suffix but `CO LTD` consists of word characters only. */
  lemma LegalSuffixWords()
    ensures forall k :: 1 <= k < |LegalSuffixes| ==> AllWord(LegalSuffixes[k])
  {
  }

  /** Where the alternation does not match, no single alternative does. */
  lemma NoAltWhereNoMatch(a: string, j: nat, alts: seq<string>, w: string)
    requires NonEmptyWords(alts) && w in alts && FirstMatch(a, j, alts).None?
    ensures !MatchesAt(a, j, w)
  {
    FirstMatchFacts(a, j, alts);
  }

  /** After the suffix removal no legal suffix stands as a whole word. */
  lemma StrippedHasNoSuffix(s: string, j: nat, w: string)
    requires w in LegalSuffixes
    ensures !MatchesAt(StripLegalSuffixes(s), j, w)
  {
    var a := StripLegalSuffixes(s);
    LegalSuffixesRemoved(s);
    LegalSuffixesNonEmpty();
    assert SuffixAt(a, j) == FirstMatch(a, j, LegalSuffixes);
    NoAltWhereNoMatch(a, j, LegalSuffixes, w);
  }

  /** Turning punctuation into spaces leaves an absent whole word absent. */
  lemma PunctKeepsAbsent(a: string, w: string)
    requires AllWord(w) && forall j1: nat :: !MatchesAt(a, j1, w)
    ensures forall j1: nat :: !MatchesAt(ReplacePunct(a), j1, w)
  {
    forall j1: nat ensures !MatchesAt(ReplacePunct(a), j1, w) {
      PunctPullsBack(a, j1, w);
    }
  }

  /** Collapsing whitespace leaves an absent whole word absent. */
  lemma CollapseKeepsAbsent(b: string, w: string)
    requires AllWord(w) && forall j1: nat :: !MatchesAt(b, j1, w)
    ensures forall j: nat :: !MatchesAt(CollapseSpaces(b), j, w)
  {
    forall j: nat ensures !MatchesAt(CollapseSpaces(b), j, w) {
      CollapsePullsBack(b, j, w);
    }
  }

  /** Trimming leaves an absent whole word absent. */
  lemma TrimKeepsAbsent(c: string, j: nat, w: string)
    requires AllWord(w) && forall j1: nat :: !MatchesAt(c, j1, w)
    ensures !MatchesAt(Trim(c), j, w)
  {
    var a := TrimStart(c);
    TrimStartSpaced(c);
    TrimEndPullsBack(a, j, w);
    SpacedSuffixPullsBack(c, a, j, w);
    assert Trim(c) == TrimEnd(a);
  }

  /** Collapsing and trimming whitespace leave an absent whole word absent. */
  lemma SpacesKeepAbsent(b: string, j: nat, w: string)
    requires AllWord(w) && forall j1: nat :: !MatchesAt(b, j1, w)
    ensures !MatchesAt(Trim(CollapseSpaces(b)), j, w)
  {
    CollapseKeepsAbsent(b, w);
    TrimKeepsAbsent(CollapseSpaces(b), j, w);
  }

  /** The punctuation, whitespace and trimming steps create no whole word `w`. */
  lemma CleanupKeepsAbsent(a: string, j: nat, w: string)
    requires AllWord(w) && forall j1: nat :: !MatchesAt(a, j1, w)
    ensures !MatchesAt(Trim(CollapseSpaces(ReplacePunct(a))), j, w)
  {
    PunctKeepsAbsent(a, w);
    SpacesKeepAbsent(ReplacePunct(a), j, w);
  }

  /** A single-word legal suffix never stands as a whole word in the company core. */
  lemma CoreHasNoWordSuffix(s: string, j: nat, w: string)
    requires NoLower(s) && AllWord(w) && w in LegalSuffixes
    ensures !MatchesAt(CompanyCore(s), j, w)
  {
    var a := StripLegalSuffixes(s);
    forall j1: nat ensures !MatchesAt(a, j1, w) {
      StrippedHasNoSuffix(s, j1, w);
    }
    CleanupKeepsAbsent(a, j, w);
    assert CompanyCore(s) == Trim(CollapseSpaces(ReplacePunct(a)));
  }

  /** `CO LTD` as a whole word leaves `LTD` as a whole word. */
  lemma CoLtdHoldsLtd(r: string, j: nat)
    ensures MatchesAt(r, j, "CO LTD") ==> MatchesAt(r, j + 3, "LTD")
  {
    if MatchesAt(r, j, "CO LTD") {
      assert r[j + 3..j + 6] == r[j..j + 6][3..] == "LTD";
      assert r[j + 2] == r[j..j + 6][2] == ' ';
      assert r[j + 3] == r[j..j + 6][3] == 'L';
    }
  }

  /** The single-word legal suffixes stand nowhere in the company core. */
  lemma CoreHasNoWords(s: string)
    requires NoLower(s)
    ensures forall w, j: nat :: w in LegalSuffixes && AllWord(w) ==> !MatchesAt(CompanyCore(s), j, w)
  {
    forall w, j: nat | w in LegalSuffixes && AllWord(w) ensures !MatchesAt(CompanyCore(s), j, w) {
      CoreHasNoWordSuffix(s, j, w);
    }
  }

  /** A list of alternatives headed by `CO LTD`, with `LTD` among them and
      single words after the head, is absent wherever its single words are. */
  lemma WordsExcludeAlts(r: string, j: nat, alts: seq<string>)
    requires alts != [] && alts[0] == "CO LTD" && "LTD" in alts
    requires forall k :: 1 <= k < |alts| ==> AllWord(alts[k])
    requires forall w, j1: nat :: w in alts && AllWord(w) ==> !MatchesAt(r, j1, w)
    ensures forall k :: 0 <= k < |alts| ==> !MatchesAt(r, j, alts[k])
  {
    assert AllWord("LTD");
    CoLtdHoldsLtd(r, j);
  }

  /** No legal suffix stands at position `j` of the company core. */
  lemma CoreHasNoSuffixAt(s: string, j: nat)
    requires NoLower(s)
    ensures forall k :: 0 <= k < |LegalSuffixes| ==> !MatchesAt(CompanyCore(s), j, LegalSuffixes[k])
  {
    CoreHasNoWords(s);
    LegalSuffixWords();
    assert LegalSuffixes[1] == "LTD";
    WordsExcludeAlts(CompanyCore(s), j, LegalSuffixes);
  }

  /** The company core keeps no legal suffix as a whole word. */
  lemma CoreHasNoSuffix(s: string)
    requires NoLower(s)
    ensures forall j: nat :: SuffixAt(CompanyCore(s), j).None?
  {
    var r := CompanyCore(s);
    LegalSuffixesNonEmpty();
    forall j: nat ensures SuffixAt(r, j).None? {
      CoreHasNoSuffixAt(s, j);
      FirstMatchFacts(r, j, LegalSuffixes);
    }
  }

  /** Letters every legal suffix contains at least one of. */
  predicate KeyLetter(c: char) {
    c == 'C' || c == 'G' || c == 'P' || c == 'T'
  }

  predicate NoKeyLetter(s: string) {
    forall i :: 0 <= i < |s| ==> !KeyLetter(s[i])
  }

  /** Where each legal suffix has a key letter. */
  const KeyIndex: seq<nat> := [0, 1, 2, 2, 0, 0, 0, 0, 0, 4]

  lemma KeyIndexFacts()
    ensures |KeyIndex| == |LegalSuffixes|
    ensures forall k :: 0 <= k < |KeyIndex| ==> KeyIndex[k] < |LegalSuffixes[k]| && KeyLetter(LegalSuffixes[k][KeyIndex[k]])
  {
  }

  /** A word holding a key letter does not occur in a string without one. */
  lemma MatchNeedsKeyLetter(t: string, j: nat, w: string, i: nat)
    requires i < |w| && KeyLetter(w[i]) && NoKeyLetter(t)
    ensures !MatchesAt(t, j, w)
  {
    if j + |w| <= |t| {
      assert t[j..j + |w|][i] == t[j + i];
    }
  }

  /** A string without key letters holds no legal suffix anywhere. */
  lemma KeylessHasNoSuffix(t: string)
    ensures NoKeyLetter(t) ==> forall j: nat :: SuffixAt(t, j).None?
  {
    if NoKeyLetter(t) {
      LegalSuffixesNonEmpty();
      KeyIndexFacts();
      forall j: nat ensures SuffixAt(t, j).None? {
        forall k | 0 <= k < |LegalSuffixes| ensures !MatchesAt(t, j, LegalSuffixes[k]) {
          MatchNeedsKeyLetter(t, j, LegalSuffixes[k], KeyIndex[k]);
        }
        FirstMatchFacts(t, j, LegalSuffixes);
      }
    }
  }

  /** The canonical company tokens hold no legal suffix. */
  lemma TokensHaveNoSuffix()
    ensures forall j: nat :: SuffixAt("SUZLON", j).None? && SuffixAt("INOX WIND", j).None? &&
                             SuffixAt("ENVISION", j).None? && SuffixAt("", j).None?
  {
    KeylessHasNoSuffix("SUZLON");
    KeylessHasNoSuffix("INOX WIND");
    KeylessHasNoSuffix("ENVISION");
    KeylessHasNoSuffix("");
  }

  predicate Plain(s: string) {
    NoLower(s) && NoPunct(s)
  }

  /** Every character of `x` is a space or a character of `y`. */
  predicate CharsWithin(x: string, y: string) {
    forall j :: 0 <= j < |x| ==> x[j] == ' ' || x[j] in y
  }

  lemma CharsFrom(x: string, y: string)
    requires Plain(y) && CharsWithin(x, y)
    ensures Plain(x)
  {
    forall j | 0 <= j < |x| ensures !('a' <= x[j] <= 'z') && !IsPunct(x[j]) {
      if x[j] != ' ' {
        var k :| 0 <= k < |y| && y[k] == x[j];
      }
    }
  }

  lemma CompanyCoreChars(s: string, a: string, b: string, c: string)
    requires NoLower(s)
    requires a == StripLegalSuffixes(s) && b == ReplacePunct(a) && c == CollapseSpaces(b)
    ensures Plain(c)
  {
    assert NoLower(a) by {
      forall j | 0 <= j < |a| ensures !('a' <= a[j] <= 'z') {
        assert a[j] in s;
      }
    }
    assert Plain(b);
    CollapseChars(b);
    CharsFrom(c, b);
  }

  /** A word of capital letters is a clean upper-case name. */
  lemma WordClean(w: string)
    requires forall i :: 0 <= i < |w| ==> 'A' <= w[i] <= 'Z'
    ensures Plain(w) && NoEdgeSpace(w) && NoDoubleSpace(w) && ToUpper(w) == w
  {
    UpperFixpoint(w);
  }

  /** The two-word special-case token is a clean upper-case name. */
  lemma InoxWindClean()
    ensures var t := "INOX WIND"; Plain(t) && NoEdgeSpace(t) && NoDoubleSpace(t) && ToUpper(t) == t
  {
    TwoWordsClean("INOX", "WIND");
    assert "INOX" + " " + "WIND" == "INOX WIND";
  }

  /** Two words of capital letters joined by one space make a clean upper-case name. */
  lemma TwoWordsClean(a: string, b: string)
    requires a != [] && b != []
    requires forall i :: 0 <= i < |a| ==> 'A' <= a[i] <= 'Z'
    requires forall i :: 0 <= i < |b| ==> 'A' <= b[i] <= 'Z'
    ensures var t := a + " " + b; Plain(t) && NoEdgeSpace(t) && NoDoubleSpace(t) && ToUpper(t) == t
  {
    var t := a + " " + b;
    assert forall i :: 0 <= i < |t| ==>
      (i < |a| ==> t[i] == a[i]) && (i == |a| ==> t[i] == ' ') && (i > |a| ==> t[i] == b[i - |a| - 1]);
    UpperFixpoint(t);
  }

  /** None of the special-case tokens contains a later one, so applying their
      rules one after the other gives the same result as trying them in order. */
  lemma TokensApart()
    ensures !Contains("SUZLON", "INOX WIND") && !Contains("SUZLON", "ENVISION")
    ensures !Contains("INOX WIND", "ENVISION")
  {
    var s, t := "INOX WIND", "ENVISION";
    forall i | 0 <= i <= |s| ensures !(t <= s[i..]) {
      if i <= 1 {
        assert s[i] != t[0];
      }
    }
  }
}
