/**
 * The argument tokenizer `str_split` of libi2pd_wrapper/capi.cpp and the C library's
 * `strtok` it is built on.
 *
 * A C string is modelled as the sequence of its characters before the terminating NUL.
 * `strtok` is modelled by the pure function `Strtok` (one call: where the next token is)
 * and the method `StrtokCall` (the one NUL it writes and the cursor it keeps).
 * `Fields` (a strict split keeping empty pieces) and `Join` are an independent reference:
 * the tokens are exactly the non-empty fields.
 */
module Tokenizer {
  import opened Wrappers

  const NUL: char := '\0'

  // ---------------------------------------------------------------------------
  // strtok, as functions on the text not yet consumed
  // ---------------------------------------------------------------------------

  /** Number of delimiters at the front of s. */
  function Skip(s: string, d: char): (n: nat)
    ensures n <= |s|
  {
    if s == [] || s[0] != d then 0 else 1 + Skip(s[1..], d)
  }

  /** Length of the run of non-delimiters at the front of s. */
  function Run(s: string, d: char): (n: nat)
    ensures n <= |s|
  {
    if s == [] || s[0] == d then 0 else 1 + Run(s[1..], d)
  }

  /** Skip stops at the first character that is not a delimiter. */
  lemma {:induction false} SkipStopsAtNonDelimiter(s: string, d: char)
    ensures forall k :: 0 <= k < Skip(s, d) ==> s[k] == d
    ensures Skip(s, d) < |s| ==> s[Skip(s, d)] != d
    decreases |s|
  {
    if s != [] && s[0] == d {
      SkipStopsAtNonDelimiter(s[1..], d);
    }
  }

  /** Run stops at the first delimiter. */
  lemma {:induction false} RunStopsAtDelimiter(s: string, d: char)
    ensures forall k :: 0 <= k < Run(s, d) ==> s[k] != d
    ensures Run(s, d) < |s| ==> s[Run(s, d)] == d
    decreases |s|
  {
    if s != [] && s[0] != d {
      RunStopsAtDelimiter(s[1..], d);
    }
  }

  /** The run length is fixed by where the first delimiter stands. */
  lemma RunIsFirstDelimiter(s: string, d: char, n: nat)
    requires n <= |s|
    requires forall k :: 0 <= k < n ==> s[k] != d
    requires n < |s| ==> s[n] == d
    ensures Run(s, d) == n
  {
    RunStopsAtDelimiter(s, d);
  }

  /**
   * One `strtok` call on the unconsumed text s: the token is s[b..e], or None when only
   * delimiters remain.
   */
  function Strtok(s: string, d: char): (r: Option<(nat, nat)>)
    ensures r.Some? ==> r.value.0 < r.value.1 <= |s|
  {
    var b := Skip(s, d);
    SkipStopsAtNonDelimiter(s, d);
    if b == |s| then None else Some((b, b + Run(s[b..], d)))
  }

  /**
   * What strtok finds is a maximal run: only delimiters precede the token, it is
   * non-empty and delimiter-free, and a delimiter or the end follows it.
   */
  lemma StrtokFindsMaximalRun(s: string, d: char, b: nat, e: nat)
    requires Strtok(s, d) == Some((b, e))
    ensures forall k :: 0 <= k < b ==> s[k] == d
    ensures forall k :: b <= k < e ==> s[k] != d
    ensures e < |s| ==> s[e] == d
  {
    SkipStopsAtNonDelimiter(s, d);
    var t := s[b..];
    RunStopsAtDelimiter(t, d);
    assert forall k :: b <= k < |s| ==> s[k] == t[k - b];
  }

  /** strtok finds no token exactly when only delimiters remain. */
  lemma StrtokNoneOnlyDelimiters(s: string, d: char)
    ensures Strtok(s, d).None? <==> forall k :: 0 <= k < |s| ==> s[k] == d
  {
    SkipStopsAtNonDelimiter(s, d);
  }

  /** Where `strtok` leaves its cursor after a token ending at e: past the delimiter it overwrote, or at the end. */
  function After(s: string, e: nat): nat
    requires e <= |s|
  {
    if e < |s| then e + 1 else e
  }

  /** The tokens successive `strtok` calls return, in order. */
  function Tokens(s: string, d: char): seq<string>
    decreases |s|
  {
    var r := Strtok(s, d);
    if r.None? then [] else [s[r.value.0..r.value.1]] + Tokens(s[After(s, r.value.1)..], d)
  }

  /** No token is empty and none contains the delimiter. */
  lemma {:induction false} TokensAreNonEmptyAndDelimiterFree(s: string, d: char)
    ensures forall i :: 0 <= i < |Tokens(s, d)| ==> Tokens(s, d)[i] != [] && d !in Tokens(s, d)[i]
    decreases |s|
  {
    var r := Strtok(s, d);
    if r.Some? {
      var b, e := r.value.0, r.value.1;
      StrtokCut(s, d, b, e);
      TokensAreNonEmptyAndDelimiterFree(s[After(s, e)..], d);
    }
  }

  /** A delimiter that directly follows a character of a token: where strtok writes a NUL. */
  predicate EndsToken(s: string, d: char, k: nat)
    requires k < |s|
  {
    0 < k && s[k] == d && s[k - 1] != d
  }

  /**
   * The text once `strtok` has consumed all of it: the delimiter right after each token
   * is overwritten with NUL, and nothing else changes.
   */
  function Terminated(s: string, d: char): (r: string)
    ensures |r| == |s|
    ensures forall k :: 0 <= k < |s| ==> r[k] == s[k] || (s[k] == d && r[k] == NUL)
  {
    seq(|s|, k requires 0 <= k < |s| => if EndsToken(s, d, k) then NUL else s[k])
  }

  /** Text in which no delimiter follows a token character is consumed without a write. */
  lemma TerminatedUntouched(s: string, d: char)
    requires forall k :: 0 < k < |s| && s[k] == d ==> s[k - 1] == d
    ensures Terminated(s, d) == s
  {
    assert forall k :: 0 <= k < |s| ==> !EndsToken(s, d, k);
  }

  // ---------------------------------------------------------------------------
  // Reference definition: strict split and join
  // ---------------------------------------------------------------------------

  /** The pieces between consecutive delimiters, empty pieces included. */
  function Fields(s: string, d: char): (r: seq<string>)
    ensures |r| > 0
    decreases |s|
  {
    var n := Run(s, d);
    if n == |s| then [s] else [s[..n]] + Fields(s[n + 1..], d)
  }

  /** There is one field more than there are delimiters, and no field contains one. */
  lemma {:induction false} FieldsCountAndShape(s: string, d: char)
    ensures |Fields(s, d)| == multiset(s)[d] + 1
    ensures forall i :: 0 <= i < |Fields(s, d)| ==> d !in Fields(s, d)[i]
    decreases |s|
  {
    var n := Run(s, d);
    RunStopsAtDelimiter(s, d);
    if n == |s| {
      assert d !in s;
    } else {
      var rest := s[n + 1..];
      assert s[n] == d;
      assert s == s[..n] + [s[n]] + rest;
      assert d !in s[..n];
      FieldsCountAndShape(rest, d);
      assert Fields(s, d) == [s[..n]] + Fields(rest, d);
    }
  }

  /** The pieces glued back together with one delimiter between neighbours. */
  function Join(fs: seq<string>, d: char): string
  {
    if |fs| == 0 then []
    else if |fs| == 1 then fs[0]
    else fs[0] + [d] + Join(fs[1..], d)
  }

  /** The pieces that are not empty, in order. */
  function NonEmpty(fs: seq<string>): seq<string>
  {
    if fs == [] then []
    else (if fs[0] == [] then [] else [fs[0]]) + NonEmpty(fs[1..])
  }

  // ---------------------------------------------------------------------------
  // The tokens are the non-empty fields
  // ---------------------------------------------------------------------------

  /** Where the first delimiter stands, the fields are the piece before it and the fields of the rest. */
  lemma FieldsAtDelimiter(s: string, d: char)
    requires Run(s, d) < |s|
    ensures var n := Run(s, d);
      s == s[..n] + [d] + s[n + 1..] && Fields(s, d) == [s[..n]] + Fields(s[n + 1..], d)
  {
    RunStopsAtDelimiter(s, d);
    CutAt(s, Run(s, d));
  }

  /** Joining a list with at least two pieces puts the delimiter after the first. */
  lemma JoinCons(f: string, fs: seq<string>, d: char)
    requires fs != []
    ensures Join([f] + fs, d) == f + [d] + Join(fs, d)
  {
    assert ([f] + fs)[1..] == fs;
  }

  /** Joining the fields gives back the text. */
  lemma {:induction false} JoinFields(s: string, d: char)
    ensures Join(Fields(s, d), d) == s
    decreases |s|
  {
    var n := Run(s, d);
    if n < |s| {
      var rest := s[n + 1..];
      FieldsAtDelimiter(s, d);
      JoinFields(rest, d);
      JoinCons(s[..n], Fields(rest, d), d);
    }
  }

  /** Splitting a join of delimiter-free pieces gives back the pieces. */
  lemma {:induction false} FieldsJoin(fs: seq<string>, d: char)
    requires |fs| > 0
    requires forall i :: 0 <= i < |fs| ==> d !in fs[i]
    ensures Fields(Join(fs, d), d) == fs
    decreases |fs|
  {
    var s := Join(fs, d);
    if |fs| == 1 {
      RunIsFirstDelimiter(s, d, |s|);
    } else {
      var n := |fs[0]|;
      var tail := Join(fs[1..], d);
      assert s == fs[0] + [d] + tail;
      assert s[n] == d;
      assert forall k :: 0 <= k < n ==> s[k] == fs[0][k];
      RunIsFirstDelimiter(s, d, n);
      assert s[..n] == fs[0];
      assert s[n + 1..] == tail;
      FieldsJoin(fs[1..], d);
      assert fs == [fs[0]] + fs[1..];
    }
  }

  /** A delimiter splits the fields of what precedes it from the fields of what follows. */
  lemma {:induction false} FieldsConcat(x: string, y: string, d: char)
    ensures Fields(x + [d] + y, d) == Fields(x, d) + Fields(y, d)
    decreases |x|
  {
    var s := x + [d] + y;
    var n := Run(x, d);
    RunStopsAtDelimiter(x, d);
    assert forall k :: 0 <= k < |x| ==> s[k] == x[k];
    if n == |x| {
      RunIsFirstDelimiter(s, d, n);
      assert s[..n] == x;
      assert s[n + 1..] == y;
    } else {
      RunIsFirstDelimiter(s, d, n);
      var x' := x[n + 1..];
      assert s[..n] == x[..n];
      assert s[n + 1..] == x' + [d] + y;
      FieldsConcat(x', y, d);
    }
  }

  lemma {:induction false} NonEmptyConcat(a: seq<string>, b: seq<string>)
    ensures NonEmpty(a + b) == NonEmpty(a) + NonEmpty(b)
    decreases |a|
  {
    if a != [] {
      assert (a + b)[1..] == a[1..] + b;
      NonEmptyConcat(a[1..], b);
    } else {
      assert a + b == b;
    }
  }

  /** Delimiters in front contribute only empty fields. */
  lemma {:induction false} DelimitersInFront(p: string, z: string, d: char)
    requires forall k :: 0 <= k < |p| ==> p[k] == d
    ensures NonEmpty(Fields(p + z, d)) == NonEmpty(Fields(z, d))
    decreases |p|
  {
    if p != [] {
      assert p + z == [] + [d] + (p[1..] + z);
      FieldsConcat([], p[1..] + z, d);
      var fs := Fields(p[1..] + z, d);
      assert Fields(p + z, d) == [[]] + fs;
      assert ([[]] + fs)[1..] == fs;
      DelimitersInFront(p[1..], z, d);
    } else {
      assert p + z == z;
    }
  }

  /** How one strtok step cuts the text: delimiters, the token, then the delimiter it ends at and the rest. */
  lemma StrtokCut(s: string, d: char, b: nat, e: nat)
    requires Strtok(s, d) == Some((b, e))
    ensures forall k :: 0 <= k < |s[..b]| ==> s[..b][k] == d
    ensures s[b..e] != [] && d !in s[b..e]
    ensures e < |s| ==> s == s[..b] + (s[b..e] + [d] + s[e + 1..])
    ensures e == |s| ==> s == s[..b] + s[b..e]
  {
    StrtokFindsMaximalRun(s, d, b, e);
    CutAround(s, b, e);
  }

  /** A sequence cut at b and e, with the element at e split off when there is one. */
  lemma CutAround<T>(s: seq<T>, b: nat, e: nat)
    requires b <= e <= |s|
    ensures forall k :: 0 <= k < |s[..b]| ==> s[..b][k] == s[k]
    ensures forall k :: 0 <= k < |s[b..e]| ==> s[b..e][k] == s[b + k]
    ensures e < |s| ==> s == s[..b] + (s[b..e] + [s[e]] + s[e + 1..])
    ensures e == |s| ==> s == s[..b] + s[b..e]
  {
    if e < |s| {
      assert s == s[..b] + s[b..e] + [s[e]] + s[e + 1..];
    } else {
      assert s == s[..b] + s[b..e];
    }
  }

  /** A single delimiter-free, non-empty piece is its own only field and its own only token. */
  lemma FieldsOfToken(t: string, rest: string, d: char)
    requires t != [] && d !in t
    ensures NonEmpty(Fields(t + [d] + rest, d)) == [t] + NonEmpty(Fields(rest, d))
    ensures NonEmpty(Fields(t, d)) == [t]
  {
    RunIsFirstDelimiter(t, d, |t|);
    FieldsConcat(t, rest, d);
    var fr := Fields(rest, d);
    assert Fields(t + [d] + rest, d) == [t] + fr;
    assert ([t] + fr)[1..] == fr;
  }

  /** Both sides of one strtok step that ends at a delimiter. */
  lemma StepAtInnerCut(s: string, d: char, b: nat, e: nat)
    requires Strtok(s, d) == Some((b, e)) && e < |s|
    ensures Tokens(s, d) == [s[b..e]] + Tokens(s[e + 1..], d)
    ensures NonEmpty(Fields(s, d)) == [s[b..e]] + NonEmpty(Fields(s[e + 1..], d))
  {
    StrtokCut(s, d, b, e);
    var p, t, rest := s[..b], s[b..e], s[e + 1..];
    DelimitersInFront(p, t + [d] + rest, d);
    FieldsOfToken(t, rest, d);
  }

  /** Both sides of one strtok step that ends the text. */
  lemma StepAtFinalCut(s: string, d: char, b: nat)
    requires Strtok(s, d) == Some((b, |s|))
    ensures Tokens(s, d) == [s[b..]] && NonEmpty(Fields(s, d)) == [s[b..]]
  {
    StrtokCut(s, d, b, |s|);
    assert s[|s|..] == [];
    DelimitersInFront(s[..b], s[b..], d);
    FieldsOfToken(s[b..], [], d);
  }

  /** Both sides when only delimiters remain. */
  lemma StepAtNoToken(s: string, d: char)
    requires Strtok(s, d).None?
    ensures Tokens(s, d) == [] && NonEmpty(Fields(s, d)) == []
  {
    StrtokNoneOnlyDelimiters(s, d);
    assert s == s + [];
    DelimitersInFront(s, [], d);
  }

  /** Two lists with the same head and equal tails are equal (one step of TokensAreNonEmptyFields, kept apart so that step is proved on plain values). */
  lemma ConsEqual<T>(x: T, a: seq<T>, b: seq<T>, l: seq<T>, r: seq<T>)
    requires l == [x] + a && r == [x] + b && a == b
    ensures l == r
  {
  }

  /** The reference characterisation: strtok's tokens are the non-empty pieces of a strict split. */
  lemma {:induction false} TokensAreNonEmptyFields(s: string, d: char)
    ensures Tokens(s, d) == NonEmpty(Fields(s, d))
    decreases |s|
  {
    var r := Strtok(s, d);
    if r.None? {
      StepAtNoToken(s, d);
    } else if r.value.1 < |s| {
      var b, e := r.value.0, r.value.1;
      var rest := s[e + 1..];
      StepAtInnerCut(s, d, b, e);
      TokensAreNonEmptyFields(rest, d);
      ConsEqual(s[b..e], Tokens(rest, d), NonEmpty(Fields(rest, d)), Tokens(s, d), NonEmpty(Fields(s, d)));
    } else {
      StepAtFinalCut(s, d, r.value.0);
    }
  }

  /** A delimiter in front yields no token. */
  lemma LeadingDelimiterIgnored(s: string, d: char)
    ensures Tokens([d] + s, d) == Tokens(s, d)
  {
    TokensAreNonEmptyFields([d] + s, d);
    TokensAreNonEmptyFields(s, d);
    assert [d] + s == [] + [d] + s;
    FieldsConcat([], s, d);
    NonEmptyConcat([[]], Fields(s, d));
  }

  /** Between two adjacent delimiters lies exactly one empty field. */
  lemma FieldsAroundDoubleDelimiter(a: string, b: string, d: char)
    ensures Fields(a + [d, d] + b, d) == Fields(a, d) + [[]] + Fields(b, d)
  {
    assert a + [d, d] + b == a + [d] + ([] + [d] + b);
    FieldsConcat(a, [] + [d] + b, d);
    FieldsConcat([], b, d);
  }

  /** Two adjacent delimiters split no differently from one: no empty token appears between them. */
  lemma ConsecutiveDelimitersCollapse(a: string, b: string, d: char)
    ensures Tokens(a + [d, d] + b, d) == Tokens(a + [d] + b, d)
  {
    var fa, fb := Fields(a, d), Fields(b, d);
    TokensAreNonEmptyFields(a + [d, d] + b, d);
    TokensAreNonEmptyFields(a + [d] + b, d);
    FieldsAroundDoubleDelimiter(a, b, d);
    FieldsConcat(a, b, d);
    NonEmptyConcat(fa + [[]], fb);
    NonEmptyConcat(fa, [[]]);
    NonEmptyConcat(fa, fb);
  }

  /** A delimiter at the end yields no token. */
  lemma TrailingDelimiterIgnored(s: string, d: char)
    ensures Tokens(s + [d], d) == Tokens(s, d)
  {
    TokensAreNonEmptyFields(s + [d], d);
    TokensAreNonEmptyFields(s, d);
    assert s + [d] == s + [d] + [];
    FieldsConcat(s, [], d);
    NonEmptyConcat(Fields(s, d), [[]]);
  }

  // ---------------------------------------------------------------------------
  // How many slots str_split allocates, and how many it fills
  // ---------------------------------------------------------------------------

  /** Position of the last delimiter (str_split's `last_comma`), or None for its initial null pointer. */
  function LastDelim(s: string, d: char): (r: Option<nat>)
    ensures r.Some? ==> r.value < |s|
    decreases |s|
  {
    if s == [] then None
    else if s[|s| - 1] == d then Some(|s| - 1)
    else LastDelim(s[..|s| - 1], d)
  }

  /** LastDelim is None exactly when there is no delimiter, and otherwise no delimiter follows it. */
  lemma {:induction false} LastDelimIsLast(s: string, d: char)
    ensures LastDelim(s, d).None? <==> d !in s
    ensures LastDelim(s, d).Some? ==>
      var i := LastDelim(s, d).value;
      s[i] == d && forall k :: i < k < |s| ==> s[k] != d
    decreases |s|
  {
    if s != [] && s[|s| - 1] != d {
      var init := s[..|s| - 1];
      LastDelimIsLast(init, d);
      assert s == init + [s[|s| - 1]];
    }
  }

  /**
   * The test `last_comma < a_str + strlen(a_str) - 1` that adds a slot for a trailing
   * token. A null `last_comma` is taken to compare below every address.
   */
  predicate TrailingSlot(s: string, d: char)
  {
    match LastDelim(s, d)
    case None => true
    case Some(i) => i < |s| - 1
  }

  /** The number of slots str_split allocates: delimiters, the trailing token, the NULL terminator. */
  function Capacity(s: string, d: char): nat
  {
    multiset(s)[d] + (if TrailingSlot(s, d) then 1 else 0) + 1
  }

  /**
   * The capacity rule in words: one slot per delimiter, one more when the text does not
   * end with the delimiter (a text without any counts as not ending with one), one for
   * the terminator.
   */
  lemma CapacityRule(s: string, d: char)
    ensures s != [] ==> Capacity(s, d) == multiset(s)[d] + (if s[|s| - 1] != d then 1 else 0) + 1
    ensures s == [] ==> Capacity(s, d) == 2
  {
    LastDelimIsLast(s, d);
  }

  /** Delimiters, and one more when the text ends in something else: the slots meant for tokens. */
  function TokenSlots(s: string, d: char): nat
  {
    multiset(s)[d] + (if s != [] && s[|s| - 1] != d then 1 else 0)
  }

  /** The delimiter stands at k and again right after it. */
  predicate DoubleAt(s: string, d: char, k: nat)
    requires k + 1 < |s|
  {
    s[k] == d && s[k + 1] == d
  }

  /** Non-empty, not starting with the delimiter, and no two delimiters side by side. */
  predicate WellFormed(s: string, d: char)
  {
    s != [] && s[0] != d && forall k :: 0 <= k < |s| - 1 ==> !DoubleAt(s, d, k)
  }

  lemma {:induction false} AllDelimitersCount(p: string, d: char)
    requires forall k :: 0 <= k < |p| ==> p[k] == d
    ensures multiset(p)[d] == |p|
    decreases |p|
  {
    if p != [] {
      assert p == [p[0]] + p[1..];
      AllDelimitersCount(p[1..], d);
    }
  }

  /** A token followed by a delimiter keeps the text well formed exactly when what follows does (or is empty). */
  lemma WellFormedAfterToken(t: string, rest: string, d: char)
    requires t != [] && d !in t
    ensures WellFormed(t + [d] + rest, d) <==> rest == [] || WellFormed(rest, d)
  {
    var s := t + [d] + rest;
    if WellFormed(s, d) && rest != [] {
      WellFormedSuffix(t, rest, d);
    }
    if rest == [] || WellFormed(rest, d) {
      WellFormedPrefix(t, rest, d);
    }
  }

  lemma WellFormedSuffix(t: string, rest: string, d: char)
    requires rest != [] && WellFormed(t + [d] + rest, d)
    ensures WellFormed(rest, d)
  {
    var s, e := t + [d] + rest, |t|;
    assert s[e] == d && s[e + 1] == rest[0];
    assert !DoubleAt(s, d, e);
    forall k | 0 <= k < |rest| - 1
      ensures !DoubleAt(rest, d, k)
    {
      assert s[e + 1 + k] == rest[k] && s[e + 2 + k] == rest[k + 1];
      assert !DoubleAt(s, d, e + 1 + k);
    }
  }

  lemma WellFormedPrefix(t: string, rest: string, d: char)
    requires t != [] && d !in t
    requires rest == [] || WellFormed(rest, d)
    ensures WellFormed(t + [d] + rest, d)
  {
    var s, e := t + [d] + rest, |t|;
    assert s[0] == t[0];
    forall k | 0 <= k < |s| - 1
      ensures !DoubleAt(s, d, k)
    {
      if k < e {
        assert s[k] == t[k];
      } else if k == e {
        assert s[k + 1] == rest[0];
      } else {
        assert s[k] == rest[k - e - 1] && s[k + 1] == rest[k - e];
        assert !DoubleAt(rest, d, k - e - 1);
      }
    }
  }

  /** When strtok's cut ends the text, the token-slot count follows the rest. */
  lemma TokenSlotsAfterCut(p: string, t: string, rest: string, d: char)
    requires forall k :: 0 <= k < |p| ==> p[k] == d
    requires t != [] && d !in t
    ensures TokenSlots(p + (t + [d] + rest), d) == |p| + 1 + TokenSlots(rest, d)
    ensures TokenSlots(p + t, d) == |p| + 1
  {
    AllDelimitersCount(p, d);
    var s := p + (t + [d] + rest);
    assert multiset(s)[d] == multiset(p)[d] + multiset(t)[d] + 1 + multiset(rest)[d];
    if rest != [] {
      assert s[|s| - 1] == rest[|rest| - 1];
    }
    assert (p + t)[|p + t| - 1] == t[|t| - 1];
  }

  /** One step of TokenCountVsSlots: a token followed by a delimiter, given the claim for the rest. */
  lemma TokenCountAfterCut(p: string, t: string, rest: string, d: char)
    requires forall k :: 0 <= k < |p| ==> p[k] == d
    requires t != [] && d !in t
    requires |Tokens(rest, d)| <= TokenSlots(rest, d)
    requires |Tokens(rest, d)| == TokenSlots(rest, d) <==> rest == [] || WellFormed(rest, d)
    ensures var s := p + (t + [d] + rest);
      (|Tokens(rest, d)| + 1 <= TokenSlots(s, d)) &&
      (|Tokens(rest, d)| + 1 == TokenSlots(s, d) <==> WellFormed(s, d))
  {
    var s := p + (t + [d] + rest);
    TokenSlotsAfterCut(p, t, rest, d);
    if p == [] {
      assert s == t + [d] + rest;
      WellFormedAfterToken(t, rest, d);
    } else {
      assert s[0] == p[0] == d;
    }
  }

  /** The same when the token runs to the end of the text. */
  lemma TokenCountAtEnd(p: string, t: string, d: char)
    requires forall k :: 0 <= k < |p| ==> p[k] == d
    requires t != [] && d !in t
    ensures 1 <= TokenSlots(p + t, d)
    ensures 1 == TokenSlots(p + t, d) <==> WellFormed(p + t, d)
  {
    TokenSlotsAfterCut(p, t, [], d);
    if p == [] {
      assert p + t == t;
    } else {
      assert (p + t)[0] == p[0] == d;
    }
  }

  /** Text made only of delimiters has no token, and is well formed only when empty. */
  lemma TokenCountOnlyDelimiters(s: string, d: char)
    requires Strtok(s, d).None?
    ensures Tokens(s, d) == [] && TokenSlots(s, d) == |s|
    ensures !WellFormed(s, d)
  {
    StrtokNoneOnlyDelimiters(s, d);
    AllDelimitersCount(s, d);
  }

  /**
   * strtok never yields more tokens than there are token slots, and exactly as many
   * precisely on empty or well-formed text.
   */
  lemma {:induction false} TokenCountVsSlots(s: string, d: char)
    ensures |Tokens(s, d)| <= TokenSlots(s, d)
    ensures |Tokens(s, d)| == TokenSlots(s, d) <==> s == [] || WellFormed(s, d)
    decreases |s|
  {
    var r := Strtok(s, d);
    if r.None? {
      TokenCountOnlyDelimiters(s, d);
    } else if r.value.1 < |s| {
      var e := r.value.1;
      var rest := s[e + 1..];
      TokenCountVsSlots(rest, d);
      SlotsAtInnerCut(s, d, r.value.0, e);
    } else {
      SlotsAtFinalCut(s, d, r.value.0);
    }
  }

  /** One step of TokenCountVsSlots for a token followed by a delimiter, given the claim for the rest. */
  lemma SlotsAtInnerCut(s: string, d: char, b: nat, e: nat)
    requires Strtok(s, d) == Some((b, e)) && e < |s|
    requires |Tokens(s[e + 1..], d)| <= TokenSlots(s[e + 1..], d)
    requires |Tokens(s[e + 1..], d)| == TokenSlots(s[e + 1..], d) <==> s[e + 1..] == [] || WellFormed(s[e + 1..], d)
    ensures |Tokens(s, d)| <= TokenSlots(s, d)
    ensures |Tokens(s, d)| == TokenSlots(s, d) <==> WellFormed(s, d)
  {
    StrtokCut(s, d, b, e);
    assert |Tokens(s, d)| == 1 + |Tokens(s[e + 1..], d)|;
    TokenCountAfterCut(s[..b], s[b..e], s[e + 1..], d);
  }

  /** The same for a token that ends the text. */
  lemma SlotsAtFinalCut(s: string, d: char, b: nat)
    requires Strtok(s, d) == Some((b, |s|))
    ensures |Tokens(s, d)| == 1 <= TokenSlots(s, d)
    ensures 1 == TokenSlots(s, d) <==> WellFormed(s, d)
  {
    StrtokCut(s, d, b, |s|);
    assert s[|s|..] == [];
    TokenCountAtEnd(s[..b], s[b..], d);
  }

  /** The writes stay in bounds: the tokens and the terminator fit the allocated slots (the assert at capi.cpp:59). */
  lemma NoOverflow(s: string, d: char)
    ensures |Tokens(s, d)| + 1 <= Capacity(s, d)
  {
    CapacityRule(s, d);
    TokenCountVsSlots(s, d);
  }

  /**
   * The tokens and the terminator fill the slots exactly (the assert at capi.cpp:63)
   * if and only if the text is well formed.
   */
  lemma ExactFill(s: string, d: char)
    ensures |Tokens(s, d)| + 1 == Capacity(s, d) <==> WellFormed(s, d)
  {
    CapacityRule(s, d);
    TokenCountVsSlots(s, d);
  }

  /** Two delimiter-free words with one delimiter between them: two tokens, three slots. */
  lemma TwoWords(x: string, y: string, d: char)
    requires x != [] && y != [] && d !in x && d !in y
    ensures Tokens(x + [d] + y, d) == [x, y]
    ensures Capacity(x + [d] + y, d) == 3
  {
    var fs, line := [x, y], x + [d] + y;
    assert fs[1..] == [y] && [y][1..] == [];
    assert Join(fs, d) == line;
    FieldsJoin(fs, d);
    TokensAreNonEmptyFields(line, d);
    assert NonEmpty([y]) == [y];
    assert NonEmpty(fs) == fs;
    CapacityRule(line, d);
    assert line[|line| - 1] == y[|y| - 1];
    assert multiset(line)[d] == multiset(x)[d] + multiset([d])[d] + multiset(y)[d];
  }

  /** The same two words with the delimiter doubled: still two tokens, but four slots. */
  lemma TwoWordsDoubled(x: string, y: string, d: char)
    requires x != [] && y != [] && d !in x && d !in y
    ensures Tokens(x + [d, d] + y, d) == [x, y]
    ensures Capacity(x + [d, d] + y, d) == 4
  {
    var line := x + [d, d] + y;
    TwoWords(x, y, d);
    ConsecutiveDelimitersCollapse(x, y, d);
    CapacityRule(line, d);
    assert line[|line| - 1] == y[|y| - 1];
    assert multiset(line)[d] == multiset(x)[d] + multiset([d, d])[d] + multiset(y)[d];
  }

  /** A sequence is the part before i, the element at i and the part after it. */
  lemma CutAt<T>(s: seq<T>, i: nat)
    requires i < |s|
    ensures s == s[..i] + [s[i]] + s[i + 1..]
  {
  }

  /** "router --log=stdout" splits into its two words, which fill its three slots exactly. */
  lemma RouterCommandLine()
    ensures Tokens("router --log=stdout", ' ') == ["router", "--log=stdout"]
    ensures Capacity("router --log=stdout", ' ') == 3
  {
    var line := "router --log=stdout";
    var x, y := line[..6], line[7..];
    assert x == "router" && y == "--log=stdout";
    CutAt(line, 6);
    TwoWords(x, y, ' ');
  }

  /** "a  b": the doubled space yields no empty token, so one slot stays unfilled. */
  lemma DoubledSpace()
    ensures Tokens("a  b", ' ') == ["a", "b"]
    ensures |Tokens("a  b", ' ')| + 1 < Capacity("a  b", ' ')
  {
    TwoWordsDoubled("a", "b", ' ');
    assert "a" + [' ', ' '] + "b" == "a  b";
  }

  /** " a": the leading space yields no token, so one slot stays unfilled. */
  lemma LeadingSpace()
    ensures Tokens(" a", ' ') == ["a"]
    ensures |Tokens(" a", ' ')| + 1 < Capacity(" a", ' ')
  {
    RunIsFirstDelimiter("a", ' ', 1);
    assert Fields("a", ' ') == ["a"];
    TokensAreNonEmptyFields("a", ' ');
    assert " a" == [' '] + "a";
    LeadingDelimiterIgnored("a", ' ');
    NoOverflow(" a", ' ');
    ExactFill(" a", ' ');
  }

  // ---------------------------------------------------------------------------
  // One strtok call, seen from the loop that makes them
  // ---------------------------------------------------------------------------

  /** What one strtok call hands back (the token, as strdup copies it) and how far it moves the cursor. */
  function Yield(s: string, d: char): (Option<string>, nat)
  {
    var r := Strtok(s, d);
    if r.None? then (None, |s|) else (Some(s[r.value.0..r.value.1]), After(s, r.value.1))
  }

  /** The unconsumed text after one strtok call: the delimiter right after the token is now NUL. */
  function Rewrite(s: string, d: char): string
  {
    var r := Strtok(s, d);
    if r.Some? && r.value.1 < |s| then s[r.value.1 := NUL] else s
  }

  /** One call yields the first of the tokens and leaves the others to the next call. */
  lemma YieldIsFirstToken(s: string, d: char)
    ensures Yield(s, d).1 <= |s|
    ensures Yield(s, d).0.None? ==> Yield(s, d).1 == |s| && Tokens(s, d) == []
    ensures Yield(s, d).0.Some? ==>
      0 < Yield(s, d).1 && Tokens(s, d) == [Yield(s, d).0.value] + Tokens(s[Yield(s, d).1..], d)
  {
    if Strtok(s, d).None? {
      assert s[|s|..] == [];
    }
  }

  /** One call rewrites only the part of the text it moves over. */
  lemma RewriteStaysInConsumedPart(s: string, d: char)
    ensures Yield(s, d).1 <= |s| == |Rewrite(s, d)|
    ensures Rewrite(s, d)[Yield(s, d).1..] == s[Yield(s, d).1..]
  {
  }

  /** ... and leaves that part as the whole loop of calls leaves it. */
  lemma RewriteTerminatesConsumedPart(s: string, d: char)
    ensures Yield(s, d).1 <= |s| == |Rewrite(s, d)|
    ensures Terminated(s, d) == Rewrite(s, d)[..Yield(s, d).1] + Terminated(s[Yield(s, d).1..], d)
  {
    var r := Strtok(s, d);
    if r.Some? && r.value.1 < |s| {
      ConsumedThroughDelimiter(s, d, r.value.0, r.value.1);
    } else {
      ConsumedWithoutWrite(s, d);
    }
  }

  /** When a delimiter follows the token, the call writes the one NUL the whole loop writes there. */
  lemma ConsumedThroughDelimiter(s: string, d: char, b: nat, e: nat)
    requires Strtok(s, d) == Some((b, e)) && e < |s|
    ensures Yield(s, d).1 <= |s| == |Rewrite(s, d)|
    ensures Terminated(s, d) == Rewrite(s, d)[..Yield(s, d).1] + Terminated(s[Yield(s, d).1..], d)
  {
    CallAtDelimiter(s, d, b, e);
    TerminatedAtDelimiter(s, d, b, e);
    UpdateTake(s, e, NUL);
    Glue(Terminated(s, d), Rewrite(s, d), s, e, NUL, Terminated(s[e + 1..], d));
  }

  /** A call whose token ends at a delimiter e writes NUL there and moves past it. */
  lemma CallAtDelimiter(s: string, d: char, b: nat, e: nat)
    requires Strtok(s, d) == Some((b, e)) && e < |s|
    ensures Yield(s, d) == (Some(s[b..e]), e + 1) && Rewrite(s, d) == s[e := NUL]
  {
  }

  /** The sequence algebra of ConsumedThroughDelimiter, over plain values. */
  lemma Glue<T>(t: seq<T>, w: seq<T>, s: seq<T>, e: nat, x: T, u: seq<T>)
    requires e < |s| && t == s[..e] + [x] + u && w == s[e := x] && w[..e + 1] == s[..e] + [x]
    ensures |w| == |s| && t == w[..e + 1] + u
  {
  }

  /** When no delimiter follows the token (or there is none), the call writes nothing and consumes all. */
  lemma ConsumedWithoutWrite(s: string, d: char)
    requires Strtok(s, d).None? || Strtok(s, d).value.1 == |s|
    ensures Yield(s, d).1 == |s| && Rewrite(s, d) == s && Terminated(s, d) == s
  {
    var r := Strtok(s, d);
    if r.None? {
      StrtokNoneOnlyDelimiters(s, d);
    } else {
      StrtokFindsMaximalRun(s, d, r.value.0, |s|);
    }
    TerminatedUntouched(s, d);
  }

  /** Consuming text whose first token ends at a delimiter e: the part up to e, then a NUL, then the rest consumed. */
  lemma TerminatedAtDelimiter(s: string, d: char, b: nat, e: nat)
    requires Strtok(s, d) == Some((b, e)) && e < |s|
    ensures Terminated(s, d) == s[..e] + [NUL] + Terminated(s[e + 1..], d)
  {
    StrtokFindsMaximalRun(s, d, b, e);
    var t, rest := Terminated(s, d), s[e + 1..];
    var u := Terminated(rest, d);
    var v := s[..e] + [NUL] + u;
    forall k | 0 <= k < |s|
      ensures t[k] == v[k]
    {
      if k < e {
        assert 0 < k < b ==> s[k - 1] == d;
        assert b < k ==> s[k - 1] != d;
      } else if k > e {
        assert rest[k - e - 1] == s[k];
        assert k - e - 1 > 0 ==> rest[k - e - 2] == s[k - 1];
      }
    }
  }

  /** Writing x at i changes the prefix through i only at its end. */
  lemma UpdateTake<T>(s: seq<T>, i: nat, x: T)
    requires i < |s|
    ensures s[i := x][..i + 1] == s[..i] + [x]
  {
  }

  // ---------------------------------------------------------------------------
  // The imperative code
  // ---------------------------------------------------------------------------

  /** A slice of the text from a cursor on is a slice of the whole text, shifted by the cursor. */
  lemma SliceOfSuffix<T>(s: seq<T>, p: nat, b: nat, e: nat)
    requires b <= e && p + e <= |s|
    ensures s[p + b..p + e] == s[p..][b..e]
  {
  }

  /** Writing into the whole text at p + i is writing into the text from p on at i. */
  lemma UpdateInSuffix<T>(s: seq<T>, p: nat, i: nat, x: T)
    requires p + i < |s|
    ensures s[p + i := x] == s[..p] + s[p..][i := x]
  {
    assert forall k {:trigger s[k]} :: 0 <= k < |s| ==> s[p + i := x][k] == (s[..p] + s[p..][i := x])[k];
  }

  /**
   * One `strtok` call that continues at cursor `pos` of the buffer: it finds the next
   * token, overwrites the delimiter right after it with NUL and moves the cursor past
   * that delimiter (to the end once no token is left).
   */
  method StrtokCall(str: array<char>, pos: nat, d: char) returns (token: Option<string>, next: nat)
    requires pos <= str.Length
    modifies str
    ensures token == Yield(old(str[pos..]), d).0 && next == pos + Yield(old(str[pos..]), d).1
    ensures str[..] == old(str[..])[..pos] + Rewrite(old(str[..])[pos..], d)
  {
    ghost var before := str[..];
    var rest := str[pos..];
    var found := Strtok(rest, d);
    if found.None? {
      token, next := None, str.Length;
      assert before == before[..pos] + rest;
    } else {
      var b, e := found.value.0, found.value.1;
      token := Some(str[pos + b..pos + e]);
      SliceOfSuffix(before, pos, b, e);
      if pos + e < str.Length {
        str[pos + e] := NUL;
        next := pos + e + 1;
        UpdateInSuffix(before, pos, e, NUL);
      } else {
        next := pos + e;
        assert before == before[..pos] + rest;
      }
    }
  }

  /**
   * The loop's view of one call: the call moves the cursor past one token (or to the
   * end) and leaves the text after the new cursor as it was.
   */
  lemma CursorStep(text: string, pos: nat, d: char, s: string, s': string, next: nat)
    requires pos <= |text| == |s| && s[pos..] == text[pos..]
    requires s' == s[..pos] + Rewrite(s[pos..], d)
    requires next == pos + Yield(s[pos..], d).1
    ensures next <= |s'| == |text| && s'[next..] == text[next..]
  {
    var r := s[pos..];
    RewriteStaysInConsumedPart(r, d);
    var adv := Yield(r, d).1;
    SpliceText(text, s, s', Rewrite(r, d), pos, adv);
  }

  /** ... and, with the text before the cursor already as the loop leaves it, keeps that so. */
  lemma TerminatedStep(text: string, pos: nat, d: char, s: string, s': string, next: nat)
    requires pos <= |text| == |s| && s[pos..] == text[pos..]
    requires Terminated(text, d) == s[..pos] + Terminated(text[pos..], d)
    requires s' == s[..pos] + Rewrite(s[pos..], d)
    requires next == pos + Yield(s[pos..], d).1
    ensures Terminated(text, d) == s'[..next] + Terminated(text[next..], d)
  {
    var r := text[pos..];
    RewriteTerminatesAt(text, pos, d);
    var adv := Yield(r, d).1;
    SpliceTerminated(s, s', Rewrite(r, d), pos, adv, Terminated(r, d), Terminated(text[pos + adv..], d), Terminated(text, d));
  }

  /** RewriteTerminatesConsumedPart, for the text from a cursor on. */
  lemma RewriteTerminatesAt(text: string, pos: nat, d: char)
    requires pos <= |text|
    ensures pos + Yield(text[pos..], d).1 <= |text| && |Rewrite(text[pos..], d)| == |text| - pos
    ensures Terminated(text[pos..], d) ==
      Rewrite(text[pos..], d)[..Yield(text[pos..], d).1] + Terminated(text[pos + Yield(text[pos..], d).1..], d)
  {
    var r := text[pos..];
    RewriteTerminatesConsumedPart(r, d);
    assert r[Yield(r, d).1..] == text[pos + Yield(r, d).1..];
  }

  /** The tokens still to come, seen from the cursor before and after one call. */
  lemma TokensStep(text: string, pos: nat, d: char, token: Option<string>, next: nat)
    requires pos <= |text|
    requires token == Yield(text[pos..], d).0 && next == pos + Yield(text[pos..], d).1
    ensures next <= |text|
    ensures token.Some? ==> pos < next && Tokens(text[pos..], d) == [token.value] + Tokens(text[next..], d)
    ensures token.None? ==> next == |text| && Tokens(text[pos..], d) == []
  {
    var r := text[pos..];
    YieldIsFirstToken(r, d);
    assert r[Yield(r, d).1..] == text[next..];
  }

  /** The sequence algebra of one cursor step, over plain values: the text after the cursor. */
  lemma SpliceText<T>(text: seq<T>, s: seq<T>, s': seq<T>, w: seq<T>, pos: nat, adv: nat)
    requires pos + adv <= |text| == |s| && s[pos..] == text[pos..]
    requires |w| == |text| - pos && w[adv..] == s[pos..][adv..]
    requires s' == s[..pos] + w
    ensures |s'| == |text| && s'[pos + adv..] == text[pos + adv..]
  {
  }

  /** ... and the text before it. */
  lemma SpliceTerminated<T>(s: seq<T>, s': seq<T>, w: seq<T>, pos: nat, adv: nat, x: seq<T>, y: seq<T>, z: seq<T>)
    requires pos <= |s| && adv <= |w|
    requires x == w[..adv] + y && z == s[..pos] + x && s' == s[..pos] + w
    ensures z == s'[..pos + adv] + y
  {
    assert s'[..pos + adv] == s[..pos] + w[..adv];
  }

  /**
   * The first half of str_split: one pass counting the delimiters and remembering the
   * last, then a slot for a trailing token and one for the terminator.
   */
  method CountSlots(str: array<char>, d: char) returns (count: nat)
    requires NUL !in str[..]
    ensures count == Capacity(str[..], d)
  {
    count := 0;
    var lastComma: Option<nat> := None;
    var i := 0;
    while i < str.Length
      invariant i <= str.Length
      invariant count == multiset(str[..i])[d]
      invariant lastComma == LastDelim(str[..i], d)
    {
      assert str[..i + 1] == str[..i] + [str[i]];
      if str[i] == d {
        count := count + 1;
        lastComma := Some(i);
      }
      i := i + 1;
    }
    assert str[..i] == str[..];
    var trailing := match lastComma
      case None => true
      case Some(j) => j < str.Length - 1;
    if trailing {
      count := count + 1;
    }
    count := count + 1;
  }

  /** The slots of a NULL-terminated vector holding the tokens `ts`, in order. */
  function NonNull(ts: seq<string>): seq<Option<string>>
  {
    if ts == [] then [] else [Some(ts[0])] + NonNull(ts[1..])
  }

  function Vector(ts: seq<string>): seq<Option<string>>
  {
    NonNull(ts) + [None]
  }

  lemma {:induction false} VectorSlots(ts: seq<string>)
    ensures |Vector(ts)| == |ts| + 1 && Vector(ts)[|ts|] == None
    ensures forall i :: 0 <= i < |ts| ==> Vector(ts)[i] == Some(ts[i])
  {
    if ts != [] {
      VectorSlots(ts[1..]);
      assert Vector(ts) == [Some(ts[0])] + Vector(ts[1..]);
    }
  }

  lemma {:induction false} NonNullSnoc(ts: seq<string>, t: string)
    ensures NonNull(ts + [t]) == NonNull(ts) + [Some(t)]
  {
    if ts != [] {
      assert (ts + [t])[1..] == ts[1..] + [t];
      NonNullSnoc(ts[1..], t);
    }
  }

  lemma NonNullTake(ts: seq<string>, n: nat)
    requires n < |ts|
    ensures NonNull(ts[..n + 1]) == NonNull(ts[..n]) + [Some(ts[n])]
  {
    assert ts[..n + 1] == ts[..n] + [ts[n]];
    NonNullSnoc(ts[..n], ts[n]);
  }

  /** The prefix of length n + 1 is the prefix of length n and element n (used once per stored slot, on the array's contents). */
  lemma TakeOneMore<T>(s: seq<T>, n: nat)
    requires n < |s|
    ensures s[..n + 1] == s[..n] + [s[n]]
  {
  }

  /** The prefix of full length is the whole sequence. */
  lemma TakeAll<T>(s: seq<T>, n: nat)
    requires n == |s|
    ensures s[..n] == s
  {
  }

  /**
   * One strtok call, as the loop of str_split sees it: given that the text before the
   * cursor `from` is as the whole loop leaves it and that the first n tokens are stored,
   * the call yields token n (or reports the end) and the same holds at its new cursor.
   */
  lemma LoopStep(text: string, toks: seq<string>, d: char, from: nat, s: string, s': string,
                 token: Option<string>, next: nat, n: nat)
    requires toks == Tokens(text, d)
    requires from <= |text| == |s| && s[from..] == text[from..]
    requires Terminated(text, d) == s[..from] + Terminated(text[from..], d)
    requires n <= |toks| && toks[n..] == Tokens(text[from..], d)
    requires s' == s[..from] + Rewrite(s[from..], d)
    requires token == Yield(s[from..], d).0 && next == from + Yield(s[from..], d).1
    ensures next <= |s'| == |text| && s'[next..] == text[next..]
    ensures Terminated(text, d) == s'[..next] + Terminated(text[next..], d)
    ensures token.None? ==> next == |text| && n == |toks|
    ensures token.Some? ==> from < next && n < |toks| && toks[n] == token.value && toks[n + 1..] == Tokens(text[next..], d)
  {
    CursorStep(text, from, d, s, s', next);
    TerminatedStep(text, from, d, s, s', next);
    TokensStep(text, from, d, token, next);
    PendingStep(toks, n, token, Tokens(text[next..], d), Tokens(text[from..], d));
  }

  /** Moving from one cursor position to the next strtok result, for a ghost list of tokens. */
  lemma PendingStep<T>(s: seq<T>, i: nat, x: Option<T>, p: seq<T>, q: seq<T>)
    requires i <= |s| && s[i..] == q
    requires x.Some? ==> q == [x.value] + p
    requires x.None? ==> q == []
    ensures x.Some? ==> i < |s| && s[i] == x.value && s[i + 1..] == p
    ensures x.None? ==> i == |s|
  {
    if x.Some? {
      assert s[i..][0] == x.value;
      assert s[i + 1..] == s[i..][1..];
    }
  }

  /**
   * The loop of str_split: store every token strtok yields, in order, into the slots;
   * n is the number of tokens stored.
   */
  method FillTokens(str: array<char>, a: array<Option<string>>, d: char) returns (n: nat)
    requires NUL !in str[..] && |Tokens(str[..], d)| < a.Length
    modifies str, a
    ensures n == |Tokens(old(str[..]), d)| < a.Length
    ensures a[..n] == NonNull(Tokens(old(str[..]), d))
    ensures str[..] == Terminated(old(str[..]), d)
  {
    ghost var text := str[..];
    ghost var toks := Tokens(text, d);
    assert text[0..] == text && toks[0..] == toks;
    n := 0;
    var token, pos := StrtokCall(str, 0, d);
    LoopStep(text, toks, d, 0, text, str[..], token, pos, 0);
    while token.Some?
      invariant pos <= str.Length
      invariant str[pos..] == text[pos..]
      invariant Terminated(text, d) == str[..pos] + Terminated(text[pos..], d)
      invariant token.None? ==> pos == str.Length && n == |toks|
      invariant token.Some? ==> n < |toks| && toks[n] == token.value && toks[n + 1..] == Tokens(text[pos..], d)
      invariant a[..n] == NonNull(toks[..n])
      decreases str.Length - pos, if token.Some? then 1 else 0
    {
      a[n] := token;
      NonNullTake(toks, n);
      TakeOneMore(a[..], n);
      n := n + 1;
      ghost var from, s := pos, str[..];
      token, pos := StrtokCall(str, pos, d);
      LoopStep(text, toks, d, from, s, str[..], token, pos, n);
    }
    TakeAll(toks, n);
    TakeAll(str[..], pos);
    assert text[pos..] == [];
  }

  /**
   * str_split: size the slots, allocate them (`mallocFails` stands for malloc returning
   * NULL), fill them and store the NULL terminator. The slots after the terminator are
   * not described: malloc leaves them uninitialised. The two `assert`s of capi.cpp are
   * taken as compiled out (NDEBUG); NoOverflow and ExactFill say when each would fire.
   */
  method StrSplit(str: array<char>, d: char, mallocFails: bool) returns (result: Option<array<Option<string>>>)
    requires NUL !in str[..]
    modifies str
    ensures result.None? <==> mallocFails
    ensures mallocFails ==> str[..] == old(str[..])
    ensures result.Some? ==>
      var a, toks := result.value, Tokens(old(str[..]), d);
      fresh(a) && a.Length == Capacity(old(str[..]), d) && |toks| < a.Length &&
      a[..|toks| + 1] == Vector(toks) &&
      (|toks| == a.Length - 1 <==> WellFormed(old(str[..]), d)) &&
      str[..] == Terminated(old(str[..]), d)
  {
    var count := CountSlots(str, d);
    if mallocFails {
      return None;
    }
    NoOverflow(str[..], d);
    ExactFill(str[..], d);
    var a := new Option<string>[count];
    var n := FillTokens(str, a, d);
    a[n] := None;
    TakeOneMore(a[..], n);
    result := Some(a);
  }
}
