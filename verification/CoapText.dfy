/** Paths and queries: a string is split at its separators into options, and the values of
    repeated options are merged again when a message is parsed. */
module CoapText {
  import opened CoapOption

  type text = seq<byte>

  const SLASH: byte := 47
  const AMPERSAND: byte := 38

  /** The first position from `k` on that does not hold a slash. */
  function SkipSlashes(s: text, k: nat): (r: nat)
    ensures k <= r && (k <= |s| ==> r <= |s|)
    decreases |s| - k
  {
    if k < |s| && s[k] == SLASH then SkipSlashes(s, k + 1) else k
  }

  /** The loop of coap_serialize_array_option from position `j` on, in the part that begins at
      `start`. After a separator the slashes are skipped, and the first character of the next part
      is not compared with the separator. */
  function SplitFrom(s: text, separator: byte, start: nat, j: nat): seq<text>
    requires start <= j
    decreases |s| + 1 - j
  {
    if j > |s| then []
    else if j == |s| || s[j] == separator then
      var next := SkipSlashes(s, j + 1);
      [s[start..j]] + SplitFrom(s, separator, next, next + 1)
    else SplitFrom(s, separator, start, j + 1)
  }

  function Split(s: text, separator: byte): seq<text> {
    SplitFrom(s, separator, 0, 0)
  }

  /** coap_merge_multi_option on values. */
  function Merge(merged: text, part: text, separator: byte): text {
    if |merged| > 0 then merged + [separator] + part else part
  }

  function MergeAll(merged: text, parts: seq<text>, separator: byte): text
    decreases |parts|
  {
    if parts == [] then merged else MergeAll(Merge(merged, parts[0], separator), parts[1..], separator)
  }

  /** From `j` on, every separator at which the string is split is followed by a part that does not
      begin with a slash. */
  predicate Rejoins(s: text, separator: byte, j: nat)
    decreases |s| - j
  {
    if j >= |s| then true
    else if s[j] == separator then j + 1 < |s| && s[j + 1] != SLASH && Rejoins(s, separator, j + 2)
    else Rejoins(s, separator, j + 1)
  }

  /** The strings that are merged to what they were. */
  predicate Canonical(s: text, separator: byte) {
    s == [] || (s[0] != separator && Rejoins(s, separator, 0))
  }

  lemma MergeStep(s: text, separator: byte, merged: text, start: nat, j: nat)
    requires start <= j <= |s| && (j == |s| || s[j] == separator)
    ensures var next := SkipSlashes(s, j + 1);
            MergeAll(merged, SplitFrom(s, separator, start, j), separator)
            == MergeAll(Merge(merged, s[start..j], separator), SplitFrom(s, separator, next, next + 1), separator)
  {
    var next := SkipSlashes(s, j + 1);
    assert SplitFrom(s, separator, start, j) == [s[start..j]] + SplitFrom(s, separator, next, next + 1);
    assert SplitFrom(s, separator, start, j)[1..] == SplitFrom(s, separator, next, next + 1);
  }

  lemma MergeEnd(s: text, separator: byte, merged: text, start: nat)
    requires start <= |s|
    ensures MergeAll(merged, SplitFrom(s, separator, start, |s|), separator) == Merge(merged, s[start..], separator)
  {
    MergeStep(s, separator, merged, start, |s|);
  }

  /** What a split at `j` contributes, given what the rest after it does. */
  lemma AfterSeparator(s: text, separator: byte, before: text, start: nat, j: nat, r: text)
    requires start <= j < |s| && s[j] == separator
    requires var next := SkipSlashes(s, j + 1);
             if next >= |s| then r == before + s[start..j]
             else if Rejoins(s, separator, next + 1) then r == before + s[start..j] + [separator] + s[next..]
             else |r| < |before| + (j - start) + 1 + |s| - next
    ensures if Rejoins(s, separator, j) then r == before + s[start..] else |r| < |before| + |s| - start
  {
    var next := SkipSlashes(s, j + 1);
    assert next == j + 1 <==> j + 1 == |s| || s[j + 1] != SLASH;
    if next == j + 1 && next < |s| {
      assert s[start..] == s[start..j] + ([separator] + s[next..]);
    }
  }

  lemma {:induction false} RejoinFrom(s: text, separator: byte, merged: text, start: nat, j: nat, r: text)
    requires merged != [] && start <= j <= |s| && r == MergeAll(merged, SplitFrom(s, separator, start, j), separator)
    ensures if Rejoins(s, separator, j) then r == merged + [separator] + s[start..]
            else |r| < |merged| + 1 + |s| - start
    decreases |s| - j
  {
    if j == |s| {
      MergeEnd(s, separator, merged, start);
    } else if s[j] == separator {
      var next := SkipSlashes(s, j + 1);
      MergeStep(s, separator, merged, start, j);
      if next < |s| {
        RejoinFrom(s, separator, merged + [separator] + s[start..j], next, next + 1, r);
      }
      AfterSeparator(s, separator, merged + [separator], start, j, r);
    } else {
      RejoinFrom(s, separator, merged, start, j + 1, r);
    }
  }

  lemma {:induction false} RejoinFirst(s: text, separator: byte, start: nat, j: nat, r: text)
    requires start <= j <= |s| && r == MergeAll([], SplitFrom(s, separator, start, j), separator)
    requires j > start || start == |s| || s[start] != separator
    ensures if Rejoins(s, separator, j) then r == s[start..] else |r| < |s| - start
    decreases |s| - j
  {
    if j == |s| {
      MergeEnd(s, separator, [], start);
    } else if s[j] == separator {
      var next := SkipSlashes(s, j + 1);
      MergeStep(s, separator, [], start, j);
      if next < |s| {
        RejoinFrom(s, separator, s[start..j], next, next + 1, r);
      }
      AfterSeparator(s, separator, [], start, j, r);
    } else {
      RejoinFirst(s, separator, start, j + 1, r);
    }
  }

  lemma {:induction false} MergedIsShort(s: text, separator: byte, start: nat, j: nat, r: text)
    requires start <= j <= |s| && r == MergeAll([], SplitFrom(s, separator, start, j), separator)
    ensures |r| <= |s| - start
    decreases |s| - j
  {
    if j == start && j < |s| && s[j] == separator {
      var next := SkipSlashes(s, j + 1);
      MergeStep(s, separator, [], start, j);
      if next < |s| {
        MergedIsShort(s, separator, next, next + 1, r);
      }
    } else {
      RejoinFirst(s, separator, start, j, r);
    }
  }

  /** Splitting a string and merging the parts gives the string back exactly if it does not begin
      with the separator and every part after a split exists and does not begin with a slash. */
  lemma MergeUndoesSplit(s: text, separator: byte)
    ensures MergeAll([], Split(s, separator), separator) == s <==> Canonical(s, separator)
  {
    var r := MergeAll([], Split(s, separator), separator);
    if s != [] && s[0] == separator {
      LeadingSeparatorIsLost(s, separator, r);
    } else {
      RejoinFirst(s, separator, 0, 0, r);
      assert s[0..] == s;
    }
  }

  lemma LeadingSeparatorIsLost(s: text, separator: byte, r: text)
    requires s != [] && s[0] == separator && r == MergeAll([], Split(s, separator), separator)
    ensures |r| < |s|
  {
    var next := SkipSlashes(s, 1);
    MergeStep(s, separator, [], 0, 0);
    if next < |s| {
      MergedIsShort(s, separator, next, next + 1, r);
    }
  }

  // ----- What is canonical -----

  /** A part is missing or empty at `i`: the string begins there, or a separator is before it, and
      it ends there, or a separator is at it. */
  predicate HasEmptyPart(s: text, separator: byte, i: nat)
    requires i <= |s|
  {
    (i == 0 || s[i - 1] == separator) && (i == |s| || s[i] == separator)
  }

  lemma {:induction false} PathRejoins(s: text, j: nat)
    requires j <= |s| && (j > 0 ==> !HasEmptyPart(s, SLASH, j) || s[j - 1] != SLASH)
    ensures Rejoins(s, SLASH, j) <==> forall i :: j < i <= |s| ==> !HasEmptyPart(s, SLASH, i)
    decreases |s| - j
  {
    if j < |s| {
      if s[j] == SLASH {
        if j + 1 < |s| && s[j + 1] != SLASH {
          PathRejoins(s, j + 2);
        } else {
          assert HasEmptyPart(s, SLASH, j + 1);
        }
      } else {
        PathRejoins(s, j + 1);
      }
    }
  }

  /** A path survives exactly if it is empty or none of its components is. */
  lemma PathsThatSurvive(s: text)
    ensures MergeAll([], Split(s, SLASH), SLASH) == s <==>
            s == [] || forall i :: 0 <= i <= |s| ==> !HasEmptyPart(s, SLASH, i)
  {
    MergeUndoesSplit(s, SLASH);
    if s != [] {
      PathRejoins(s, 0);
      assert s[0] == SLASH ==> HasEmptyPart(s, SLASH, 0);
    }
  }

  /** The number of ampersands right before position `i`. */
  function Ampersands(s: text, i: nat): nat
    requires i <= |s|
  {
    if i == 0 || s[i - 1] != AMPERSAND then 0 else Ampersands(s, i - 1) + 1
  }

  /** At a slash or at the end, the number of ampersands before it is even. */
  predicate Paired(s: text, i: nat)
    requires i <= |s|
  {
    i == |s| || s[i] == SLASH ==> Ampersands(s, i) % 2 == 0
  }

  lemma {:induction false} QueryRejoins(s: text, j: nat)
    requires j <= |s| && Ampersands(s, j) % 2 == 0
    ensures Rejoins(s, AMPERSAND, j) <==> forall i :: j <= i <= |s| ==> Paired(s, i)
    decreases |s| - j
  {
    if j < |s| {
      if s[j] != AMPERSAND {
        QueryRejoins(s, j + 1);
      } else if j + 1 < |s| && s[j + 1] != SLASH {
        assert Ampersands(s, j + 2) == if s[j + 1] == AMPERSAND then Ampersands(s, j) + 2 else 0;
        QueryRejoins(s, j + 2);
      } else {
        assert !Paired(s, j + 1);
      }
    }
  }

  /** A query survives exactly if it does not begin with an ampersand and no odd number of
      ampersands is right before a slash or at its end: of several in a row every second one
      belongs to a part. */
  lemma QueriesThatSurvive(s: text)
    ensures MergeAll([], Split(s, AMPERSAND), AMPERSAND) == s
            <==> (s != [] ==> s[0] != AMPERSAND) && forall i :: 0 <= i <= |s| ==> Paired(s, i)
  {
    MergeUndoesSplit(s, AMPERSAND);
    QueryRejoins(s, 0);
  }

  // ----- The parts as options -----

  lemma {:induction false} SplitIsNotEmpty(s: text, separator: byte, start: nat, j: nat)
    requires start <= j <= |s|
    ensures SplitFrom(s, separator, start, j) != []
    decreases |s| - j
  {
    if j < |s| && s[j] != separator {
      SplitIsNotEmpty(s, separator, start, j + 1);
    }
  }
}
