/** String operations the handler relies on: Java's `String.trim`, the comma removal done by
    `replaceAll(",", "")`, and a single-space join used to state what cell text looks like. */
module Text {
  import Seqs

  /** `String.trim` removes every character whose code is at most U+0020, not just spaces. */
  predicate IsBlank(c: char) {
    c <= ' '
  }

  predicate AllBlank(s: string) {
    forall k :: 0 <= k < |s| ==> IsBlank(s[k])
  }

  /** The first index at or after `k` whose character is not blank, or |s| when there is none:
      the first loop of `String.trim`. */
  function SkipBlanks(s: string, k: nat): (i: nat)
    requires k <= |s|
    ensures k <= i <= |s|
    ensures forall j :: k <= j < i ==> IsBlank(s[j])
    ensures i < |s| ==> !IsBlank(s[i])
    decreases |s| - k
  {
    if k < |s| && IsBlank(s[k]) then SkipBlanks(s, k + 1) else k
  }

  /** The end of `s[lo..hi]` once its trailing blanks are dropped: the second loop of
      `String.trim`, which never moves the end below the start. */
  function DropBlanks(s: string, lo: nat, hi: nat): (e: nat)
    requires lo <= hi <= |s|
    ensures lo <= e <= hi
    ensures forall j :: e <= j < hi ==> IsBlank(s[j])
    ensures e > lo ==> !IsBlank(s[e - 1])
    decreases hi
  {
    if lo < hi && IsBlank(s[hi - 1]) then DropBlanks(s, lo, hi - 1) else hi
  }

  /** Java's `String.trim`: `s` without its leading and trailing blanks. */
  function Trim(s: string): (r: string)
    ensures r == [] || (!IsBlank(r[0]) && !IsBlank(r[|r| - 1]))
    ensures r == [] <==> AllBlank(s)
  {
    var st := SkipBlanks(s, 0);
    s[st..DropBlanks(s, st, |s|)]
  }

  /** Trim keeps an infix of `s` and everything it cuts off, on either side, is blank. With the
      ends of the result being non-blank, this pins the result down. */
  lemma TrimInfix(s: string)
    ensures exists i, j :: (0 <= i <= j <= |s| && Trim(s) == s[i..j] &&
                            (forall k :: 0 <= k < i ==> IsBlank(s[k])) &&
                            (forall k :: j <= k < |s| ==> IsBlank(s[k])))
  {
    var i := SkipBlanks(s, 0);
    var j := DropBlanks(s, i, |s|);
    assert Trim(s) == s[i..j];
  }

  /** Trimming a string that neither starts nor ends with a blank leaves it as it is. */
  lemma TrimTrimmed(s: string)
    requires s == [] || (!IsBlank(s[0]) && !IsBlank(s[|s| - 1]))
    ensures Trim(s) == s
  {
    assert s[0..|s|] == s;
  }

  /** Trimming is idempotent. */
  lemma TrimIdempotent(s: string)
    ensures Trim(Trim(s)) == Trim(s)
  {
    TrimTrimmed(Trim(s));
  }

  /** One trailing space after a trimmed non-empty string is exactly what trimming removes. */
  lemma TrimSpaceAfter(s: string)
    requires s != [] && !IsBlank(s[0]) && !IsBlank(s[|s| - 1])
    ensures Trim(s + " ") == s
  {
    var t := s + " ";
    assert SkipBlanks(t, 0) == 0 by { assert t[0] == s[0]; }
    assert DropBlanks(t, 0, |t|) == |s| by { assert t[|s| - 1] == s[|s| - 1]; }
    assert t[0..|s|] == s;
  }

  /** The texts of `ts` separated by single spaces (`String.join(" ", ts)`). */
  function Join(ts: seq<string>): (r: string)
    ensures |ts| == 1 ==> r == ts[0]
  {
    if ts == [] then ""
    else if |ts| == 1 then ts[0]
    else ts[0] + " " + Join(ts[1..])
  }

  predicate NotComma(c: char) {
    c != ','
  }

  /** `s` with every comma removed (`replaceAll(",", "")`), all other characters kept in order. */
  function StripCommas(s: string): (r: string)
    ensures |r| <= |s|
    ensures ',' !in r
  {
    Seqs.Filter(s, NotComma)
  }

  /** No comma survives, and every other character does. */
  lemma StripCommasMembers(s: string)
    ensures ',' !in StripCommas(s)
    ensures forall c :: c in s && c != ',' ==> c in StripCommas(s)
  {
    Seqs.FilterMembers(s, NotComma);
  }

  /** Exactly the commas are removed: every other character keeps its number of occurrences. */
  lemma StripCommasCount(s: string, c: char)
    ensures multiset(StripCommas(s))[c] == if c == ',' then 0 else multiset(s)[c]
  {
    Seqs.FilterMultiplicity(s, NotComma, c);
  }

  /** Removing commas from a string that has none changes nothing; in particular it is idempotent. */
  lemma {:induction false} StripCommasNone(s: string)
    requires ',' !in s
    ensures StripCommas(s) == s
  {
    if s != [] {
      assert s == [s[0]] + s[1..];
      StripCommasNone(s[1..]);
      Seqs.FilterAppend([s[0]], s[1..], NotComma);
    }
  }

  /** A thousands separator between two comma-free parts is simply dropped. */
  lemma StripCommaBetween(a: string, b: string)
    requires ',' !in a && ',' !in b
    ensures StripCommas(a + "," + b) == a + b
  {
    StripCommasNone(a);
    StripCommasNone(b);
    Seqs.FilterAppend(a + ",", b, NotComma);
    Seqs.FilterAppend(a, ",", NotComma);
    assert Seqs.Filter(",", NotComma) == [] by { assert ","[1..] == []; }
  }
}
