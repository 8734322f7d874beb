/**
 * Token-string normalisation: the authenticator's case-insensitive
 * `Replace("Bearer ", "")` on the raw header value. Like the string library's
 * replace, it scans left to right and removes EVERY non-overlapping
 * occurrence, not only a leading scheme prefix. Case is folded on ASCII
 * letters only.
 */
module BearerToken {
  import opened Wrappers

  /** The text that is removed, compared without regard to case. */
  const Scheme: string := "Bearer "

  /** ASCII case folding: upper-case letters map to lower case, all else is kept. */
  function AsciiLower(c: char): char {
    if 'A' <= c <= 'Z' then (c as int + 32) as char else c
  }

  function LowerAll(s: string): (r: string)
    ensures |r| == |s|
    ensures forall i :: 0 <= i < |s| ==> r[i] == AsciiLower(s[i])
  {
    seq(|s|, i requires 0 <= i < |s| => AsciiLower(s[i]))
  }

  /** A case-insensitive occurrence of the scheme starts at the head of `s`. */
  predicate StartsWithScheme(s: string) {
    |s| >= |Scheme| && forall k :: 0 <= k < |Scheme| ==> AsciiLower(s[k]) == AsciiLower(Scheme[k])
  }

  /** A case-insensitive occurrence of the scheme starts at index `i` of `s`. */
  predicate OccursAt(s: string, i: nat)
    requires i <= |s|
  {
    StartsWithScheme(s[i..])
  }

  /** The number of occurrences the left-to-right scan removes. */
  function Occurrences(s: string): nat
    decreases |s|
  {
    if s == [] then 0
    else if StartsWithScheme(s) then 1 + Occurrences(s[|Scheme|..])
    else Occurrences(s[1..])
  }

  /**
   * The replace: at each position, an occurrence is dropped whole and the
   * scan resumes after it; otherwise one character is kept.
   */
  function Replace(s: string): (r: string)
    ensures |r| == |s| - |Scheme| * Occurrences(s)
    decreases |s|
  {
    if s == [] then []
    else if StartsWithScheme(s) then Replace(s[|Scheme|..])
    else [s[0]] + Replace(s[1..])
  }

  /** A null token stays null; any other token is run through the replace. */
  function NormalizeToken(token: Option<string>): (r: Option<string>)
    ensures r.None? <==> token.None?
    ensures r.Some? ==> |r.value| == |token.value| - |Scheme| * Occurrences(token.value)
  {
    match token
    case None => None
    case Some(t) => Some(Replace(t))
  }

  /**
   * Reference search: the first index at or after `from` where the scheme
   * occurs, as an index-of search reports it.
   */
  function IndexOf(s: string, from: nat): (r: Option<nat>)
    ensures r.Some? ==> from <= r.value <= |s| && OccursAt(s, r.value)
    ensures r.Some? ==> forall j :: from <= j < r.value ==> !OccursAt(s, j)
    ensures r.None? ==> forall j :: from <= j <= |s| ==> !OccursAt(s, j)
    decreases |s| - from
  {
    if from > |s| then None
    else if OccursAt(s, from) then Some(from)
    else IndexOf(s, from + 1)
  }

  lemma ShiftOccursAt(s: string, i: nat)
    requires 0 < |s| && i + 1 <= |s|
    ensures OccursAt(s[1..], i) == OccursAt(s, i + 1)
  {
    assert s[1..][i..] == s[i + 1..];
  }

  /** A token in which the scheme never occurs is returned unchanged. */
  lemma {:induction false} NoOccurrenceUnchanged(s: string)
    requires forall i :: 0 <= i <= |s| ==> !OccursAt(s, i)
    ensures Replace(s) == s && Occurrences(s) == 0
    decreases |s|
  {
    if s != [] {
      assert s[0..] == s;
      assert !OccursAt(s, 0);
      forall i | 0 <= i <= |s[1..]|
        ensures !OccursAt(s[1..], i)
      {
        ShiftOccursAt(s, i);
      }
      NoOccurrenceUnchanged(s[1..]);
      assert s == [s[0]] + s[1..];
    }
  }

  /** Where no occurrence starts at the head, the first character is kept. */
  lemma KeepHead(s: string)
    requires s != [] && !OccursAt(s, 0)
    ensures Replace(s) == [s[0]] + Replace(s[1..])
    ensures Occurrences(s) == Occurrences(s[1..])
  {
    assert s[0..] == s;
  }

  /**
   * Left to right: the text before the first occurrence is kept as it is,
   * that occurrence is dropped, and the scan goes on after it.
   */
  lemma {:induction false} ReplaceAtFirstOccurrence(s: string, i: nat)
    requires i <= |s| && OccursAt(s, i)
    requires forall j :: 0 <= j < i ==> !OccursAt(s, j)
    ensures i + |Scheme| <= |s|
    ensures Replace(s) == s[..i] + Replace(s[i + |Scheme|..])
    ensures Occurrences(s) == 1 + Occurrences(s[i + |Scheme|..])
    decreases i
  {
    if i == 0 {
      assert s[0..] == s;
    } else {
      KeepHead(s);
      FirstOccurrenceShifts(s, i);
      ReplaceAtFirstOccurrence(s[1..], i - 1);
      assert s[1..][i - 1 + |Scheme|..] == s[i + |Scheme|..];
      KeptHeadJoins(s, i, Replace(s[1..]), Replace(s[i + |Scheme|..]));
    }
  }

  /** The kept head character joins the kept text of the tail. */
  lemma KeptHeadJoins(s: string, i: nat, kept: string, rest: string)
    requires 0 < i <= |s|
    requires kept == s[1..][..i - 1] + rest
    ensures [s[0]] + kept == s[..i] + rest
  {
    assert [s[0]] + s[1..][..i - 1] == s[..i];
  }

  /** Dropping the head moves the first occurrence one place to the left. */
  lemma FirstOccurrenceShifts(s: string, i: nat)
    requires 0 < i <= |s| && OccursAt(s, i)
    requires forall j :: 0 <= j < i ==> !OccursAt(s, j)
    ensures OccursAt(s[1..], i - 1)
    ensures forall j :: 0 <= j < i - 1 ==> !OccursAt(s[1..], j)
  {
    ShiftOccursAt(s, i - 1);
    forall j | 0 <= j < i - 1
      ensures !OccursAt(s[1..], j)
    {
      ShiftOccursAt(s, j);
    }
  }

  /**
   * The replace agrees with the index-of formulation: when the search finds
   * nothing the token is left alone ...
   */
  lemma ReplaceWhenIndexOfFails(s: string)
    requires IndexOf(s, 0).None?
    ensures Replace(s) == s
  {
    NoOccurrenceUnchanged(s);
  }

  /** ... and otherwise the first occurrence found is cut out and the rest replaced. */
  lemma ReplaceAtIndexOf(s: string, i: nat)
    requires IndexOf(s, 0) == Some(i)
    ensures i + |Scheme| <= |s|
    ensures Replace(s) == s[..i] + Replace(s[i + |Scheme|..])
  {
    ReplaceAtFirstOccurrence(s, i);
  }

  lemma AsciiLowerIdempotent(c: char)
    ensures AsciiLower(AsciiLower(c)) == AsciiLower(c)
  {
  }

  lemma StartsWithSchemeIgnoresCase(s: string)
    ensures StartsWithScheme(LowerAll(s)) == StartsWithScheme(s)
  {
    if |s| >= |Scheme| {
      forall k | 0 <= k < |Scheme|
        ensures AsciiLower(LowerAll(s)[k]) == AsciiLower(s[k])
      {
        AsciiLowerIdempotent(s[k]);
      }
    }
  }

  /**
   * Case insensitivity: folding the case of the input before or after the
   * replace gives the same text, and the same number of occurrences goes.
   */
  lemma {:induction false} ReplaceIgnoresCase(s: string)
    ensures LowerAll(Replace(s)) == Replace(LowerAll(s))
    ensures Occurrences(LowerAll(s)) == Occurrences(s)
    decreases |s|
  {
    if s != [] {
      StartsWithSchemeIgnoresCase(s);
      var n := if StartsWithScheme(s) then |Scheme| else 1;
      LowerAllDrop(s, n);
      ReplaceIgnoresCase(s[n..]);
      if !StartsWithScheme(s) {
        LowerAllCons(s[0], Replace(s[1..]));
      }
    }
  }

  lemma LowerAllDrop(s: string, n: nat)
    requires n <= |s|
    ensures LowerAll(s)[n..] == LowerAll(s[n..])
  {
  }

  lemma LowerAllCons(c: char, t: string)
    ensures LowerAll([c] + t) == [AsciiLower(c)] + LowerAll(t)
  {
  }

  /** No occurrence can start anywhere in a token that has no space. */
  lemma NoSpaceNoOccurrence(t: string, i: nat)
    requires i <= |t| && ' ' !in t
    ensures !OccursAt(t, i)
  {
    if i + |Scheme| <= |t| {
      assert t[i..][6] == t[i + 6];
      assert t[i + 6] in t;
    }
  }

  /** A token with no space (a compact JWT has none) is returned unchanged. */
  lemma SpacelessTokenUnchanged(t: string)
    requires ' ' !in t
    ensures Replace(t) == t
  {
    forall i | 0 <= i <= |t|
      ensures !OccursAt(t, i)
    {
      NoSpaceNoOccurrence(t, i);
    }
    NoOccurrenceUnchanged(t);
  }

  /**
   * For a spaceless token behind the scheme written in any letter case,
   * removing every occurrence coincides with stripping a leading prefix only.
   */
  lemma PrefixedSpacelessToken(p: string, t: string)
    requires |p| == |Scheme| && StartsWithScheme(p)
    requires ' ' !in t
    ensures Replace(p + t) == t
  {
    var s := p + t;
    assert s[|Scheme|..] == t;
    forall k | 0 <= k < |Scheme|
      ensures AsciiLower(s[k]) == AsciiLower(Scheme[k])
    {
      assert s[k] == p[k];
    }
    assert StartsWithScheme(s);
    SpacelessTokenUnchanged(t);
  }

  /**
   * The replace is not idempotent: in "BeBearer arer " the inner
   * occurrence is removed, its neighbours join into "Bearer ", and a single
   * pass leaves that in place; a second pass removes it.
   */
  lemma NotIdempotent()
    ensures Replace(Scheme[..2] + Scheme + Scheme[2..]) == Scheme
    ensures Replace(Replace(Scheme[..2] + Scheme + Scheme[2..])) == []
  {
    ExampleReplaced(Scheme[..2] + Scheme + Scheme[2..]);
    SchemeAloneRemoved();
  }

  lemma ExampleReplaced(s: string)
    requires s == Scheme[..2] + Scheme + Scheme[2..]
    ensures Replace(s) == Scheme
  {
    ExampleOccurrences(s);
    ReplaceAtFirstOccurrence(s, 2);
    ExamplePieces(s);
    ShortTokenUnchanged(Scheme[2..]);
  }

  lemma ExamplePieces(s: string)
    requires s == Scheme[..2] + Scheme + Scheme[2..]
    ensures s[..2] + s[2 + |Scheme|..] == Scheme[..2] + Scheme[2..] == Scheme
  {
    assert s[..2] == Scheme[..2];
    assert s[2 + |Scheme|..] == Scheme[2..];
  }

  lemma SchemeAloneRemoved()
    ensures Replace(Scheme) == []
  {
    var b := Scheme;
    assert b[0..] == b;
    assert OccursAt(b, 0);
    ReplaceAtFirstOccurrence(b, 0);
    assert b[7..] == [];
  }

  /** In the example, the first occurrence starts at index 2. */
  lemma ExampleOccurrences(s: string)
    requires s == Scheme[..2] + Scheme + Scheme[2..]
    ensures OccursAt(s, 2)
    ensures forall j :: 0 <= j < 2 ==> !OccursAt(s, j)
  {
    assert s[2..] == Scheme + Scheme[2..];
    assert s[0..] == s && s[2] == Scheme[0];
    assert AsciiLower(s[2]) != AsciiLower(Scheme[2]);
    assert s[1..][0] == Scheme[1];
    assert AsciiLower(s[1..][0]) != AsciiLower(Scheme[0]);
    assert !OccursAt(s, 0) && !OccursAt(s, 1);
  }

  /** A token shorter than the scheme has no occurrence and is kept. */
  lemma ShortTokenUnchanged(t: string)
    requires |t| < |Scheme|
    ensures Replace(t) == t
  {
    forall i | 0 <= i <= |t|
      ensures !OccursAt(t, i)
    {
    }
    NoOccurrenceUnchanged(t);
  }
}
