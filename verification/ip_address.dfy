/** `extractIPAddress`: `std::regex_search` of the pattern
      \b(25[0-5]|2[0-4][0-9]|[01]?[0-9][0-9]?)\.(same)\.(same)\.(same)\b
    in ECMAScript mode over a control URL, returning the matched text or
    `""`. The search is modelled the way the regex engine runs it: start
    positions left to right, the three alternatives of an octet in order,
    greedy optional digits, backtracking on failure. It is then proved
    equal to a declarative reading: the leftmost substring that is four
    dot-separated decimal octets (each at most 255) with a word boundary on
    both sides. */
module IpAddress {
  import opened Common

  // ---------------------------------------------------------------------
  // Character classes and the word boundary

  predicate IsDigit(c: char) {
    '0' <= c <= '9'
  }

  /** `\w` in the classic locale: ASCII letters, digits and underscore. */
  predicate IsWordChar(c: char) {
    ('a' <= c <= 'z') || ('A' <= c <= 'Z') || IsDigit(c) || c == '_'
  }

  /** `\b` at position `i` (between `s[i-1]` and `s[i]`). */
  predicate AtBoundary(s: string, i: nat)
    requires i <= |s|
  {
    (0 < i && IsWordChar(s[i - 1])) != (i < |s| && IsWordChar(s[i]))
  }

  // ---------------------------------------------------------------------
  // The regex engine's view

  /** `[0-9][0-9]?` at `j`: the end positions it can reach, greedy first. */
  function DigitThenOptionalDigit(s: string, j: nat): (ends: seq<nat>)
    requires j <= |s|
    ensures forall e :: e in ends ==> j < e <= |s|
  {
    if j < |s| && IsDigit(s[j]) then
      if j + 1 < |s| && IsDigit(s[j + 1]) then [j + 2, j + 1] else [j + 1]
    else []
  }

  /** The end positions of one octet sub-pattern starting at `i`, in the
      order the engine tries them: `25[0-5]`, then `2[0-4][0-9]`, then
      `[01]?[0-9][0-9]?` with the optional leading digit taken first. */
  function OctetEnds(s: string, i: nat): (ends: seq<nat>)
    requires i <= |s|
    ensures forall e :: e in ends ==> i < e <= |s|
  {
    (if i + 3 <= |s| && s[i] == '2' && s[i + 1] == '5' && '0' <= s[i + 2] <= '5' then [i + 3] else [])
    + (if i + 3 <= |s| && s[i] == '2' && '0' <= s[i + 1] <= '4' && IsDigit(s[i + 2]) then [i + 3] else [])
    + (if i < |s| && (s[i] == '0' || s[i] == '1') then DigitThenOptionalDigit(s, i + 1) else [])
    + DigitThenOptionalDigit(s, i)
  }

  /** Try each candidate end of the current octet in order; `left` counts
      the octets still to match, this one included. The first candidate
      from which the rest of the pattern matches wins. */
  function TryEnds(s: string, ends: seq<nat>, left: nat): Option<nat>
    requires 1 <= left
    requires forall e :: e in ends ==> e <= |s|
    decreases left, |ends| + 1
  {
    if ends == [] then None
    else
      assert ends[0] in ends;
      assert forall e :: e in ends[1..] ==> e in ends;
      match AfterOctet(s, ends[0], left)
      case Some(r) => Some(r)
      case None => TryEnds(s, ends[1..], left)
  }

  /** The rest of the pattern after an octet ending at `e`: either the
      closing `\b`, or a `.` and the next octet. */
  function AfterOctet(s: string, e: nat, left: nat): Option<nat>
    requires 1 <= left
    requires e <= |s|
    decreases left, 0
  {
    if left == 1 then
      if AtBoundary(s, e) then Some(e) else None
    else if e < |s| && s[e] == '.' then
      TryEnds(s, OctetEnds(s, e + 1), left - 1)
    else
      None
  }

  /** The whole pattern anchored at start position `p`: the end of the
      match, if any. */
  function MatchAt(s: string, p: nat): Option<nat>
    requires p <= |s|
  {
    if AtBoundary(s, p) then TryEnds(s, OctetEnds(s, p), 4) else None
  }

  // ---------------------------------------------------------------------
  // The declarative view

  predicate AllDigits(t: string) {
    forall k :: 0 <= k < |t| ==> IsDigit(t[k])
  }

  function DigitValue(c: char): int {
    c as int - '0' as int
  }

  /** Value of a decimal numeral, most significant digit first. */
  function DecimalValue(t: string): int
    decreases |t|
  {
    if t == [] then 0 else DecimalValue(t[..|t| - 1]) * 10 + DigitValue(t[|t| - 1])
  }

  /** One to three decimal digits denoting a number no larger than 255. */
  predicate IsOctet(t: string) {
    1 <= |t| <= 3 && AllDigits(t) && DecimalValue(t) <= 255
  }

  /** The pieces of `t` between dots (`"a.b"` gives `["a", "b"]`, `""`
      gives `[""]`). */
  function Fields(t: string): (f: seq<string>)
    ensures |f| >= 1
    decreases |t|
  {
    if t == [] then [""]
    else
      var rest := Fields(t[1..]);
      if t[0] == '.' then [""] + rest else [[t[0]] + rest[0]] + rest[1..]
  }

  /** `t` is `k` octets separated by dots. */
  predicate IsOctets(t: string, k: nat) {
    var f := Fields(t);
    |f| == k && forall j :: 0 <= j < k ==> IsOctet(f[j])
  }

  predicate IsDottedQuad(t: string) {
    IsOctets(t, 4)
  }

  /** `s[p..e]` is a dotted quad delimited by word boundaries. */
  predicate IpMatch(s: string, p: nat, e: nat) {
    p <= e <= |s| && AtBoundary(s, p) && AtBoundary(s, e) && IsDottedQuad(s[p..e])
  }

  // ---------------------------------------------------------------------
  // Facts about numerals and fields

  lemma DecimalValueSmall(t: string)
    requires 1 <= |t| <= 3
    ensures |t| == 1 ==> DecimalValue(t) == DigitValue(t[0])
    ensures |t| == 2 ==> DecimalValue(t) == 10 * DigitValue(t[0]) + DigitValue(t[1])
    ensures |t| == 3 ==> DecimalValue(t) == 100 * DigitValue(t[0]) + 10 * DigitValue(t[1]) + DigitValue(t[2])
  {
    var a := t[..|t| - 1];
    if |t| >= 2 {
      var b := a[..|a| - 1];
      if |t| == 3 {
        assert b[..0] == [];
        assert b[0] == t[0] && a[1] == t[1];
      } else {
        assert b == [];
        assert a[0] == t[0];
      }
    } else {
      assert a == [];
    }
  }

  /** The candidate ends of the octet sub-pattern are exactly the ends of
      the one-to-three-digit numerals up to 255 starting there. */
  lemma OctetEndsExact(s: string, i: nat, e: nat)
    requires i <= |s|
    ensures e in OctetEnds(s, i) <==> i < e <= |s| && IsOctet(s[i..e])
  {
    if i < e <= |s| && e - i <= 3 {
      var t := s[i..e];
      DecimalValueSmall(t);
      assert forall k :: 0 <= k < |t| ==> t[k] == s[i + k];
    }
  }

  lemma {:induction false} FieldsNoDot(t: string)
    requires '.' !in t
    ensures Fields(t) == [t]
    decreases |t|
  {
    if t != [] {
      FieldsNoDot(t[1..]);
      assert [t[0]] + t[1..] == t;
    }
  }

  lemma {:induction false} FieldsDot(a: string, b: string)
    requires '.' !in a
    ensures Fields(a + "." + b) == [a] + Fields(b)
    decreases |a|
  {
    if a == [] {
      assert a + "." + b == "." + b;
      assert ("." + b)[1..] == b;
    } else {
      assert (a + "." + b)[1..] == a[1..] + "." + b;
      FieldsDot(a[1..], b);
      assert [a[0]] + a[1..] == a;
    }
  }

  /** How the first field sits in `t`: a dot-free prefix that is either all
      of `t` or followed by a dot and the remaining fields. */
  lemma {:induction false} FieldsSplit(t: string)
    ensures var f := Fields(t);
            && |f[0]| <= |t| && t[..|f[0]|] == f[0] && '.' !in f[0]
            && (|f| == 1 ==> f[0] == t)
            && (|f| > 1 ==> |f[0]| < |t| && t[|f[0]|] == '.' && Fields(t[|f[0]| + 1..]) == f[1..])
    decreases |t|
  {
    if t != [] {
      FieldsSplit(t[1..]);
      var rest := Fields(t[1..]);
      if t[0] != '.' {
        var f0 := [t[0]] + rest[0];
        assert t[..|f0|] == [t[0]] + t[1..][..|rest[0]|];
        if |rest| > 1 {
          assert t[|f0|] == t[1..][|rest[0]|];
          assert t[|f0| + 1..] == t[1..][|rest[0]| + 1..];
        } else {
          assert t == [t[0]] + t[1..];
        }
      } else {
        assert t[1..] == t[0 + 1..];
      }
    }
  }

  /** A run of octets is never empty. */
  lemma OctetsNonEmpty(t: string, k: nat)
    requires k >= 1 && IsOctets(t, k)
    ensures |t| >= 1 && IsDigit(t[0])
  {
    FieldsSplit(t);
    var f0 := Fields(t)[0];
    assert f0[0] == t[0];
  }

  // ---------------------------------------------------------------------
  // The engine finds only declarative matches

  lemma OctetHasNoDot(t: string)
    requires IsOctet(t)
    ensures '.' !in t
  {
    forall k | 0 <= k < |t| ensures t[k] != '.' {
      assert IsDigit(t[k]);
    }
  }

  lemma OctetEndsSound(s: string, j: nat)
    requires j <= |s|
    ensures forall c :: c in OctetEnds(s, j) ==> j < c <= |s| && IsOctet(s[j..c])
  {
    forall c | c in OctetEnds(s, j)
      ensures IsOctet(s[j..c])
    {
      OctetEndsExact(s, j, c);
    }
  }

  lemma SliceAroundDot(s: string, i: nat, e: nat, r: nat)
    requires i <= e < r <= |s| && s[e] == '.'
    ensures s[i..r] == s[i..e] + "." + s[e + 1..r]
  {
  }

  /** What a successful continuation after an octet has seen. */
  lemma AfterOctetCases(s: string, e: nat, left: nat)
    requires 1 <= left && e <= |s|
    requires AfterOctet(s, e, left).Some?
    ensures left == 1 ==> AtBoundary(s, e) && AfterOctet(s, e, left) == Some(e)
    ensures left > 1 ==> e < |s| && s[e] == '.'
                         && AfterOctet(s, e, left) == TryEnds(s, OctetEnds(s, e + 1), left - 1)
  {
  }

  /** An octet, a dot and `k` octets make `k + 1` octets. */
  lemma OctetsDotJoin(s: string, i: nat, e: nat, r: nat, k: nat)
    requires i <= e < r <= |s| && s[e] == '.'
    requires IsOctet(s[i..e]) && IsOctets(s[e + 1..r], k)
    ensures IsOctets(s[i..r], k + 1)
  {
    SliceAroundDot(s, i, e, r);
    OctetsCons(s[i..e], s[e + 1..r], k);
  }

  lemma {:induction false} AfterOctetSound(s: string, i: nat, e: nat, left: nat, r: nat)
    requires i < e <= |s| && 1 <= left
    requires IsOctet(s[i..e])
    requires AfterOctet(s, e, left) == Some(r)
    ensures e <= r <= |s| && IsOctets(s[i..r], left) && AtBoundary(s, r)
    decreases left, 1
  {
    if left == 1 {
      LastOctetSound(s, i, e, r);
    } else {
      InnerOctetSound(s, i, e, left, r);
    }
  }

  lemma LastOctetSound(s: string, i: nat, e: nat, r: nat)
    requires i < e <= |s|
    requires IsOctet(s[i..e])
    requires AfterOctet(s, e, 1) == Some(r)
    ensures e <= r <= |s| && IsOctets(s[i..r], 1) && AtBoundary(s, r)
  {
    OctetsSingle(s[i..e]);
  }

  lemma {:induction false} InnerOctetSound(s: string, i: nat, e: nat, left: nat, r: nat)
    requires i < e <= |s| && 1 < left
    requires IsOctet(s[i..e])
    requires AfterOctet(s, e, left) == Some(r)
    ensures e <= r <= |s| && IsOctets(s[i..r], left) && AtBoundary(s, r)
    decreases left, 0
  {
    AfterDotSound(s, e, left, r);
    OctetsDotJoin(s, i, e, r, left - 1);
  }

  /** After a dot, the engine has matched the remaining octets. */
  lemma {:induction false} AfterDotSound(s: string, e: nat, left: nat, r: nat)
    requires e <= |s| && 1 < left
    requires AfterOctet(s, e, left) == Some(r)
    ensures e < r <= |s| && s[e] == '.' && IsOctets(s[e + 1..r], left - 1) && AtBoundary(s, r)
    decreases left - 1, |s| + 3
  {
    AfterOctetCases(s, e, left);
    OctetEndsSound(s, e + 1);
    TryEndsSound(s, e + 1, OctetEnds(s, e + 1), left - 1, r);
  }

  lemma {:induction false} TryEndsSound(s: string, i: nat, ends: seq<nat>, left: nat, r: nat)
    requires i <= |s| && 1 <= left
    requires forall c :: c in ends ==> i < c <= |s| && IsOctet(s[i..c])
    requires TryEnds(s, ends, left) == Some(r)
    ensures i < r <= |s| && IsOctets(s[i..r], left) && AtBoundary(s, r)
    decreases left, |ends| + 2
  {
    assert ends[0] in ends;
    match AfterOctet(s, ends[0], left)
    case Some(_) =>
      AfterOctetSound(s, i, ends[0], left, r);
    case None =>
      assert forall c :: c in ends[1..] ==> c in ends;
      TryEndsSound(s, i, ends[1..], left, r);
  }

  // ---------------------------------------------------------------------
  // The engine finds every declarative match

  lemma {:induction false} TryEndsSomeIfMember(s: string, ends: seq<nat>, e: nat, left: nat)
    requires 1 <= left
    requires forall c :: c in ends ==> c <= |s|
    requires e in ends && e <= |s|
    requires AfterOctet(s, e, left).Some?
    ensures TryEnds(s, ends, left).Some?
    decreases |ends|
  {
    assert ends[0] in ends;
    if ends[0] != e {
      assert e in ends[1..];
      assert forall c :: c in ends[1..] ==> c in ends;
      if AfterOctet(s, ends[0], left).None? {
        TryEndsSomeIfMember(s, ends[1..], e, left);
      }
    }
  }

  /** A run of `k` octets splits after its first octet: at its end when
      `k == 1`, otherwise at a dot followed by the remaining `k - 1`. */
  lemma OctetsSplit(s: string, i: nat, r: nat, k: nat) returns (e: nat)
    requires i <= r <= |s| && k >= 1
    requires IsOctets(s[i..r], k)
    ensures i < e <= r && IsOctet(s[i..e])
    ensures k == 1 ==> e == r
    ensures k > 1 ==> e < r && s[e] == '.' && IsOctets(s[e + 1..r], k - 1)
  {
    var t := s[i..r];
    var f := Fields(t);
    FieldsSplit(t);
    e := i + |f[0]|;
    assert s[i..e] == t[..|f[0]|];
    if k > 1 {
      assert s[e] == t[|f[0]|];
      assert s[e + 1..r] == t[|f[0]| + 1..];
      var g := Fields(s[e + 1..r]);
      forall j | 0 <= j < k - 1 ensures IsOctet(g[j]) {
        assert g[j] == f[j + 1];
      }
    }
  }

  lemma AfterLastOctet(s: string, e: nat)
    requires e <= |s| && AtBoundary(s, e)
    ensures AfterOctet(s, e, 1) == Some(e)
  {
  }

  lemma AfterInnerOctet(s: string, e: nat, left: nat)
    requires e < |s| && s[e] == '.' && left > 1
    requires TryEnds(s, OctetEnds(s, e + 1), left - 1).Some?
    ensures AfterOctet(s, e, left).Some?
  {
  }

  lemma TryOctetEnds(s: string, i: nat, e: nat, left: nat)
    requires i <= |s| && 1 <= left
    requires e in OctetEnds(s, i)
    requires AfterOctet(s, e, left).Some?
    ensures TryEnds(s, OctetEnds(s, i), left).Some?
  {
    TryEndsSomeIfMember(s, OctetEnds(s, i), e, left);
  }

  lemma {:induction false} TryEndsComplete(s: string, i: nat, r: nat, left: nat)
    requires i <= r <= |s| && 1 <= left
    requires IsOctets(s[i..r], left) && AtBoundary(s, r)
    ensures TryEnds(s, OctetEnds(s, i), left).Some?
    decreases left, 1
  {
    if left == 1 {
      LastOctetComplete(s, i, r);
    } else {
      InnerOctetComplete(s, i, r, left);
    }
  }

  lemma LastOctetComplete(s: string, i: nat, r: nat)
    requires i <= r <= |s|
    requires IsOctets(s[i..r], 1) && AtBoundary(s, r)
    ensures TryEnds(s, OctetEnds(s, i), 1).Some?
  {
    var e := OctetsSplit(s, i, r, 1);
    OctetEndsExact(s, i, e);
    AfterLastOctet(s, e);
    TryOctetEnds(s, i, e, 1);
  }

  lemma {:induction false} InnerOctetComplete(s: string, i: nat, r: nat, left: nat)
    requires i <= r <= |s| && 1 < left
    requires IsOctets(s[i..r], left) && AtBoundary(s, r)
    ensures TryEnds(s, OctetEnds(s, i), left).Some?
    decreases left, 0
  {
    var e := OctetsSplit(s, i, r, left);
    TryEndsComplete(s, e + 1, r, left - 1);
    OctetThenDot(s, i, e, left);
  }

  /** An octet followed by a dot from which the rest matches. */
  lemma OctetThenDot(s: string, i: nat, e: nat, left: nat)
    requires i < e < |s| && 1 < left
    requires IsOctet(s[i..e]) && s[e] == '.'
    requires TryEnds(s, OctetEnds(s, e + 1), left - 1).Some?
    ensures TryEnds(s, OctetEnds(s, i), left).Some?
  {
    OctetEndsExact(s, i, e);
    AfterInnerOctet(s, e, left);
    TryOctetEnds(s, i, e, left);
  }

  // ---------------------------------------------------------------------
  // At a given start there is at most one declarative match

  lemma FirstFieldNotShorter(s: string, i: nat, r1: nat, r2: nat, k: nat)
    requires i <= r1 <= |s| && i <= r2 <= |s| && k >= 1
    requires IsOctets(s[i..r1], k) && AtBoundary(s, r1)
    requires IsOctets(s[i..r2], k)
    ensures |Fields(s[i..r1])[0]| >= |Fields(s[i..r2])[0]|
  {
    var t1, t2 := s[i..r1], s[i..r2];
    FieldsSplit(t1);
    FieldsSplit(t2);
  }

  lemma {:induction false} OctetsEndUnique(s: string, i: nat, r1: nat, r2: nat, k: nat)
    requires i <= r1 <= |s| && i <= r2 <= |s| && k >= 1
    requires IsOctets(s[i..r1], k) && AtBoundary(s, r1)
    requires IsOctets(s[i..r2], k) && AtBoundary(s, r2)
    ensures r1 == r2
    decreases k
  {
    FirstFieldNotShorter(s, i, r1, r2, k);
    FirstFieldNotShorter(s, i, r2, r1, k);
    var t1, t2 := s[i..r1], s[i..r2];
    FieldsSplit(t1);
    FieldsSplit(t2);
    var f1, f2 := Fields(t1), Fields(t2);
    var a := |f1[0]|;
    if k > 1 {
      var j := i + a + 1;
      assert s[j..r1] == t1[a + 1..];
      assert s[j..r2] == t2[a + 1..];
      forall x | 0 <= x < k - 1
        ensures IsOctet(Fields(s[j..r1])[x]) && IsOctet(Fields(s[j..r2])[x])
      {
        assert Fields(s[j..r1])[x] == f1[x + 1];
        assert Fields(s[j..r2])[x] == f2[x + 1];
      }
      OctetsEndUnique(s, j, r1, r2, k - 1);
    }
  }

  /** The engine's answer at a start position is exactly the declarative
      match there. */
  lemma MatchAtExact(s: string, p: nat, e: nat)
    requires p <= |s|
    ensures MatchAt(s, p) == Some(e) <==> IpMatch(s, p, e)
  {
    OctetEndsSound(s, p);
    if MatchAt(s, p).Some? {
      TryEndsSound(s, p, OctetEnds(s, p), 4, MatchAt(s, p).value);
    }
    if IpMatch(s, p, e) {
      TryEndsComplete(s, p, e, 4);
      var r := MatchAt(s, p).value;
      TryEndsSound(s, p, OctetEnds(s, p), 4, r);
      OctetsEndUnique(s, p, r, e, 4);
    }
  }

  /** At most one match starts at any position. */
  lemma IpMatchUnique(s: string, p: nat, e1: nat, e2: nat)
    requires IpMatch(s, p, e1) && IpMatch(s, p, e2)
    ensures e1 == e2
  {
    OctetsEndUnique(s, p, e1, e2, 4);
  }

  /** A match starts with a digit. */
  lemma IpMatchStartsWithDigit(s: string, p: nat, e: nat)
    requires IpMatch(s, p, e)
    ensures p < e && IsDigit(s[p])
  {
    OctetsNonEmpty(s[p..e], 4);
  }

  /** `k` dotted octets take at most four characters each, less the last
      dot. */
  lemma {:induction false} OctetsLength(t: string, k: nat)
    requires k >= 1 && IsOctets(t, k)
    ensures |t| <= 4 * k - 1
    decreases k
  {
    FieldsSplit(t);
    var f := Fields(t);
    if k > 1 {
      var rest := t[|f[0]| + 1..];
      assert Fields(rest) == f[1..];
      assert IsOctets(rest, k - 1);
      OctetsLength(rest, k - 1);
    }
  }

  /** A dotted quad is at most 15 characters long. */
  lemma DottedQuadLength(t: string)
    requires IsDottedQuad(t)
    ensures |t| <= 15
  {
    OctetsLength(t, 4);
  }

  // ---------------------------------------------------------------------
  // The search

  /** `regex_search` from start position `p` on: the first start position
      with a match, and the end of that match. */
  function SearchFrom(s: string, p: nat): (r: Option<(nat, nat)>)
    requires p <= |s|
    ensures r.Some? ==>
              && p <= r.value.0
              && IpMatch(s, r.value.0, r.value.1)
              && forall q: nat, e: nat :: p <= q < r.value.0 ==> !IpMatch(s, q, e)
    ensures r.None? ==> forall q: nat, e: nat :: p <= q ==> !IpMatch(s, q, e)
    decreases |s| - p
  {
    match MatchAt(s, p)
    case Some(e) =>
      MatchAtExact(s, p, e);
      Some((p, e))
    case None =>
      assert forall e :: !IpMatch(s, p, e) by {
        forall e ensures !IpMatch(s, p, e) {
          MatchAtExact(s, p, e);
        }
      }
      if p == |s| then None else SearchFrom(s, p + 1)
  }

  /** `extractIPAddress`: the leftmost dotted quad with word boundaries on
      both sides, or `""` when the text holds none. */
  function ExtractIPAddress(s: string): (ip: string)
    ensures ip == "" <==> forall p: nat, e: nat :: !IpMatch(s, p, e)
    ensures ip != "" ==> IsDottedQuad(ip)
    ensures ip != "" ==>
              exists p: nat, e: nat :: IpMatch(s, p, e) && ip == s[p..e]
                             && forall q: nat, e': nat :: q < p ==> !IpMatch(s, q, e')
  {
    match SearchFrom(s, 0)
    case Some(m) =>
      var p, e := m.0, m.1;
      IpMatchStartsWithDigit(s, p, e);
      assert IpMatch(s, p, e) && forall q: nat, e': nat :: q < p ==> !IpMatch(s, q, e');
      s[p..e]
    case None => ""
  }

  /** When a match starts at `p` and no digit precedes `p`, that match is
      the answer. */
  lemma FirstDigitMatchIsExtracted(s: string, p: nat, e: nat)
    requires IpMatch(s, p, e)
    requires forall k :: 0 <= k < p ==> !IsDigit(s[k])
    ensures ExtractIPAddress(s) == s[p..e]
  {
    var ip := ExtractIPAddress(s);
    var p': nat, e': nat :| IpMatch(s, p', e') && ip == s[p'..e'] && forall q: nat, e'': nat :: q < p' ==> !IpMatch(s, q, e'');
    IpMatchStartsWithDigit(s, p', e');
    assert p' == p;
    IpMatchUnique(s, p, e, e');
  }

  /** A text without any digit holds no address. */
  lemma NoDigitNoAddress(s: string)
    requires forall k :: 0 <= k < |s| ==> !IsDigit(s[k])
    ensures ExtractIPAddress(s) == ""
  {
    forall p: nat, e: nat | IpMatch(s, p, e) ensures false {
      IpMatchStartsWithDigit(s, p, e);
    }
  }

  /** Dotted runs of octets are built one octet at a time. */
  lemma OctetsSingle(a: string)
    requires IsOctet(a)
    ensures IsOctets(a, 1)
  {
    OctetHasNoDot(a);
    FieldsNoDot(a);
  }

  lemma OctetsCons(a: string, b: string, k: nat)
    requires IsOctet(a) && IsOctets(b, k)
    ensures IsOctets(a + "." + b, k + 1)
  {
    OctetHasNoDot(a);
    FieldsDot(a, b);
  }

  /** A numeral of at most three digits whose value is at most 255 is an
      octet. */
  lemma SmallNumeralIsOctet(t: string)
    requires 1 <= |t| <= 3 && AllDigits(t)
    requires |t| == 3 ==> 100 * DigitValue(t[0]) + 10 * DigitValue(t[1]) + DigitValue(t[2]) <= 255
    ensures IsOctet(t)
  {
    DecimalValueSmall(t);
  }

  lemma ControlUrlQuad(quad: string)
    requires quad == "192.168.1.50"
    ensures IsDottedQuad(quad)
  {
    var a, b, c, d := quad[..3], quad[4..7], quad[8..9], quad[10..];
    assert a == "192" && b == "168" && d == "50";
    assert |c| == 1 && c[0] == '1';
    assert c == "1";
    SmallNumeralIsOctet(a);
    SmallNumeralIsOctet(b);
    SmallNumeralIsOctet(c);
    SmallNumeralIsOctet(d);
    OctetsSingle(d);
    OctetsCons(c, d, 1);
    OctetsCons(b, c + "." + d, 2);
    OctetsCons(a, b + "." + (c + "." + d), 3);
    assert a + "." + (b + "." + (c + "." + d)) == quad;
  }

  /** The control URL of a typical camera yields its address. */
  lemma ExtractFromControlUrl(s: string)
    requires s == "http://192.168.1.50:80/ctrl"
    ensures ExtractIPAddress(s) == "192.168.1.50"
  {
    assert s[7..19] == "192.168.1.50";
    ControlUrlQuad(s[7..19]);
    assert IpMatch(s, 7, 19);
    FirstDigitMatchIsExtracted(s, 7, 19);
  }

  /** A URL without any digit yields the empty string. */
  lemma ExtractFromHostName(s: string)
    requires s == "http://camera.local/ctrl"
    ensures ExtractIPAddress(s) == ""
  {
    NoDigitNoAddress(s);
  }
}
