/** Relation labels: their normal form, and the gates that look them up by it. */
module Ontology {
  import opened Wrappers

  const NAME_MAX := 64

  predicate IsUpper(c: char) { 'A' <= c <= 'Z' }

  predicate IsLower(c: char) { 'a' <= c <= 'z' }

  predicate IsDigit(c: char) { '0' <= c <= '9' }

  predicate IsAlnum(c: char) { IsUpper(c) || IsLower(c) || IsDigit(c) }

  function ToLower(c: char): (l: char)
    ensures IsUpper(c) ==> IsLower(l)
    ensures !IsUpper(c) ==> l == c
  {
    if IsUpper(c) then c + ('a' - 'A') else c
  }

  // What a normalized label says.

  /** A word starts at i: after a separator, or at a capital following a small letter or a digit. */
  predicate StartsWord(s: string, i: nat)
    requires i < |s|
  {
    i > 0 && (!IsAlnum(s[i - 1]) || (IsUpper(s[i]) && (IsLower(s[i - 1]) || IsDigit(s[i - 1]))))
  }

  /** The letters and digits of the first n characters in lower case, words joined by underscores. */
  function Words(s: string, n: nat): (w: string)
    requires n <= |s|
  {
    if n == 0 then ""
    else
      var w := Words(s, n - 1);
      if !IsAlnum(s[n - 1]) then w
      else w + (if w != "" && StartsWord(s, n - 1) then "_" else "") + [ToLower(s[n - 1])]
  }

  function TrimUnderscore(s: string): string {
    if s != "" && s[|s| - 1] == '_' then s[..|s| - 1] else s
  }

  /** The words of a label, cut to what the buffer holds. */
  function Normalize(s: string): string {
    var w := Words(s, |s|);
    TrimUnderscore(if |w| < NAME_MAX then w else w[..NAME_MAX - 1])
  }

  predicate NameChar(c: char) { IsLower(c) || IsDigit(c) || c == '_' }

  /** Groups of small letters and digits joined by single underscores. */
  predicate Joined(s: string) {
    && (forall i :: 0 <= i < |s| ==> NameChar(s[i]))
    && (s != "" ==> s[0] != '_')
    && (forall i :: 0 <= i < |s| - 1 ==> !(s[i] == '_' && s[i + 1] == '_'))
  }

  predicate NormalForm(s: string) {
    Joined(s) && |s| < NAME_MAX && (s != "" ==> s[|s| - 1] != '_')
  }

  lemma {:induction false} WordsAreJoined(s: string, n: nat)
    requires n <= |s|
    ensures var w := Words(s, n); Joined(w) && (w != "" ==> w[|w| - 1] != '_')
  {
    if n > 0 {
      WordsAreJoined(s, n - 1);
      var w := Words(s, n - 1);
      if IsAlnum(s[n - 1]) {
        JoinOne(w, ToLower(s[n - 1]));
      }
    }
  }

  lemma JoinOne(w: string, c: char)
    requires Joined(w) && (w != "" ==> w[|w| - 1] != '_')
    requires IsLower(c) || IsDigit(c)
    ensures Joined(w + [c])
    ensures w != "" ==> Joined(w + "_" + [c])
  {
    var v := w + "_" + [c];
    assert forall i :: 0 <= i < |w| ==> v[i] == w[i];
    assert v[|w|] == '_' && v[|w| + 1] == c;
  }

  /** Every normalized label is in normal form. */
  lemma NormalizeIsNormal(s: string)
    ensures NormalForm(Normalize(s))
  {
    WordsAreJoined(s, |s|);
  }

  lemma {:induction false} WordsOfNormal(s: string, n: nat)
    requires NormalForm(s) && n <= |s|
    ensures Words(s, n) == if n > 0 && s[n - 1] == '_' then s[..n - 1] else s[..n]
  {
    if n > 0 {
      WordsOfNormal(s, n - 1);
      assert NameChar(s[n - 1]);
      if n > 1 {
        assert NameChar(s[n - 2]);
        assert !(s[n - 2] == '_' && s[n - 2 + 1] == '_');
      }
    }
  }

  /** Every string in normal form is the normal form of itself. */
  lemma NormalIsFixed(s: string)
    requires NormalForm(s)
    ensures Normalize(s) == s
  {
    WordsOfNormal(s, |s|);
  }

  /** The normalized labels are exactly the strings in normal form, and normalizing twice changes nothing. */
  lemma NormalizeImage(t: string)
    ensures NormalForm(t) <==> exists s :: Normalize(s) == t
    ensures Normalize(Normalize(t)) == Normalize(t)
  {
    if NormalForm(t) {
      NormalIsFixed(t);
    }
    forall s | Normalize(s) == t
      ensures NormalForm(t)
    {
      NormalizeIsNormal(s);
    }
    NormalizeIsNormal(t);
    NormalIsFixed(Normalize(t));
  }

  // Spellings.

  /** One word of a label: what separates it from the word before, the word in small letters and
      digits, and whether its first letter is a capital. */
  datatype Spelled = Spelled(separator: string, word: string, capital: bool)

  function Text(w: Spelled): string {
    w.separator
    + if w.capital && w.word != "" && IsLower(w.word[0]) then [w.word[0] - ('a' - 'A')] + w.word[1..] else w.word
  }

  /** The word starts with a letter, and is set off from one before it by characters that are no
      letters or digits, or by its capital. */
  predicate Spells(w: Spelled, first: bool) {
    && w.word != "" && IsLower(w.word[0])
    && (forall i :: 0 <= i < |w.word| ==> IsLower(w.word[i]) || IsDigit(w.word[i]))
    && (forall i :: 0 <= i < |w.separator| ==> !IsAlnum(w.separator[i]))
    && (w.separator == "" ==> first || w.capital)
  }

  /** And a capital does not set a word off from a single capital before it. */
  predicate AllSpell(ws: seq<Spelled>) {
    && (forall i :: 0 <= i < |ws| ==> Spells(ws[i], i == 0))
    && forall i :: 0 < i < |ws| && ws[i].separator == "" ==> !(ws[i - 1].capital && |ws[i - 1].word| == 1)
  }

  function Label(ws: seq<Spelled>): string {
    if ws == [] then "" else Label(ws[..|ws| - 1]) + Text(ws[|ws| - 1])
  }

  /** The words joined by underscores. */
  function Snake(ws: seq<Spelled>): string {
    if ws == [] then ""
    else if |ws| == 1 then ws[0].word
    else Snake(ws[..|ws| - 1]) + "_" + ws[|ws| - 1].word
  }

  lemma {:induction false} WordsPrefix(s: string, t: string, n: nat)
    requires n <= |s|
    ensures Words(s + t, n) == Words(s, n)
  {
    if n > 0 {
      WordsPrefix(s, t, n - 1);
      assert (s + t)[n - 1] == s[n - 1];
      assert n > 1 ==> (s + t)[n - 2] == s[n - 2];
    }
  }

  lemma {:induction false} WordsOverSeparator(s: string, lo: nat, hi: nat)
    requires lo <= hi <= |s| && forall i :: lo <= i < hi ==> !IsAlnum(s[i])
    ensures Words(s, hi) == Words(s, lo)
  {
    if lo < hi {
      WordsOverSeparator(s, lo, hi - 1);
    }
  }

  lemma {:induction false} WordsOverWord(s: string, lo: nat, hi: nat)
    requires 0 < lo <= hi <= |s| && IsAlnum(s[lo - 1])
    requires forall i :: lo <= i < hi ==> IsLower(s[i]) || IsDigit(s[i])
    ensures Words(s, hi) == Words(s, lo) + s[lo..hi]
  {
    if lo < hi {
      WordsOverWord(s, lo, hi - 1);
    }
  }

  /** What the characters of a spelled word are. */
  lemma TextParts(t: string, before: nat, w: Spelled)
    requires before + |Text(w)| == |t| && t[before..] == Text(w) && Spells(w, before == 0)
    ensures var at := before + |w.separator|;
            && at < |t| && IsAlnum(t[at]) && (before > 0 && at == before ==> IsUpper(t[at]))
            && (forall i :: before <= i < at ==> !IsAlnum(t[i]))
            && (forall i :: at + 1 <= i < |t| ==> IsLower(t[i]) || IsDigit(t[i]))
            && [ToLower(t[at])] + t[at + 1..] == w.word
  {
    var at := before + |w.separator|;
    assert forall i :: before <= i < |t| ==> t[i] == t[before..][i - before];
    assert t[at + 1..] == w.word[1..];
  }

  /** A word after the characters that separate it, or after nothing but its own capital. */
  lemma WordsOfText(t: string, before: nat, w: Spelled)
    requires before + |Text(w)| == |t| && t[before..] == Text(w) && Spells(w, before == 0)
    requires before > 0 ==> Words(t, before) != ""
    requires before > 0 && w.separator == "" ==> IsLower(t[before - 1]) || IsDigit(t[before - 1])
    ensures Words(t, |t|) == Words(t, before) + (if before == 0 then "" else "_") + w.word
  {
    TextParts(t, before, w);
    hide *;
    WordsOfParts(t, before, before + |w.separator|);
  }

  lemma WordsOfParts(t: string, before: nat, at: nat)
    requires before <= at < |t| && IsAlnum(t[at]) && (before > 0 && at == before ==> IsUpper(t[at]))
    requires forall i :: before <= i < at ==> !IsAlnum(t[i])
    requires forall i :: at + 1 <= i < |t| ==> IsLower(t[i]) || IsDigit(t[i])
    requires before > 0 ==> Words(t, before) != ""
    requires before > 0 && at == before ==> IsLower(t[before - 1]) || IsDigit(t[before - 1])
    ensures Words(t, |t|) ==
              Words(t, before) + (if before == 0 then "" else "_") + ([ToLower(t[at])] + t[at + 1..])
  {
    WordsOfNone(t);
    hide *;
    WordsOverSeparator(t, before, at);
    WordsFirst(t, before, at);
    WordsOverRest(t, at + 1, Words(t, before) + if before == 0 then "" else "_", ToLower(t[at]));
  }

  lemma WordsOverRest(t: string, lo: nat, front: string, c: char)
    requires 0 < lo <= |t| && IsAlnum(t[lo - 1]) && Words(t, lo) == front + [c]
    requires forall i :: lo <= i < |t| ==> IsLower(t[i]) || IsDigit(t[i])
    ensures Words(t, |t|) == front + ([c] + t[lo..])
  {
    hide *;
    WordsOverWord(t, lo, |t|);
    assert t[lo..|t|] == t[lo..];
  }

  lemma WordsOfNone(t: string)
    ensures Words(t, 0) == ""
  {
  }

  lemma WordsFirst(t: string, before: nat, at: nat)
    requires before <= at < |t| && IsAlnum(t[at]) && Words(t, at) == Words(t, before)
    requires before == 0 <==> Words(t, before) == ""
    requires before > 0 && before == at ==> IsUpper(t[at]) && (IsLower(t[at - 1]) || IsDigit(t[at - 1]))
    requires before < at ==> !IsAlnum(t[at - 1])
    ensures Words(t, at + 1) == Words(t, before) + (if before == 0 then "" else "_") + [ToLower(t[at])]
  {
  }

  lemma AllSpellFront(ws: seq<Spelled>)
    requires AllSpell(ws) && ws != []
    ensures var rest, w := ws[..|ws| - 1], ws[|ws| - 1];
            && AllSpell(rest) && Spells(w, rest == [])
            && (rest != [] && w.separator == "" ==> !(rest[|rest| - 1].capital && |rest[|rest| - 1].word| == 1))
  {
  }

  lemma LabelSnake(ws: seq<Spelled>)
    requires ws != []
    ensures var rest, w := ws[..|ws| - 1], ws[|ws| - 1];
            && Label(ws) == Label(rest) + Text(w)
            && (rest != [] ==> Snake(ws) == Snake(rest) + "_" + w.word) && (rest == [] ==> Snake(ws) == w.word)
  {
  }

  lemma LastOfText(w: Spelled)
    requires exists first :: Spells(w, first)
    ensures Text(w) != "" && w.word != ""
    ensures !(w.capital && |w.word| == 1) ==> var c := Text(w)[|Text(w)| - 1]; IsLower(c) || IsDigit(c)
  {
  }

  lemma {:induction false} WordsOfLabel(ws: seq<Spelled>)
    requires AllSpell(ws)
    ensures Words(Label(ws), |Label(ws)|) == Snake(ws)
    ensures (ws == [] <==> Label(ws) == "") && (ws == [] <==> Snake(ws) == "")
    ensures ws != [] && !(ws[|ws| - 1].capital && |ws[|ws| - 1].word| == 1) ==>
              var c := Label(ws)[|Label(ws)| - 1]; IsLower(c) || IsDigit(c)
  {
    if ws != [] {
      var rest, w := ws[..|ws| - 1], ws[|ws| - 1];
      var a, t := Label(rest), Label(ws);
      AllSpellFront(ws);
      LabelSnake(ws);
      hide AllSpell, Label, Snake, Words, Text, Spells, IsLower, IsDigit;
      WordsOfLabel(rest);
      WordsPrefix(a, Text(w), |a|);
      assert t[|a|..] == Text(w);
      assert a != "" ==> t[|a| - 1] == a[|a| - 1];
      WordsOfText(t, |a|, w);
      LastOfText(w);
      assert t[|t| - 1] == Text(w)[|Text(w)| - 1];
    }
  }

  /** However a label spells its words, with capitals, with any characters between them, or both, its
      normal form is the words in small letters joined by underscores, cut to 63 characters. */
  lemma SpellingsAgree(ws: seq<Spelled>)
    requires AllSpell(ws)
    ensures Normalize(Label(ws)) == TrimUnderscore(if |Snake(ws)| < 64 then Snake(ws) else Snake(ws)[..63])
    ensures |Snake(ws)| < 64 ==> Normalize(Label(ws)) == Snake(ws)
  {
    WordsOfLabel(ws);
    WordsAreJoined(Label(ws), |Label(ws)|);
    hide Words;
  }

  lemma {:induction false} WordsOfCapitals(s: string, n: nat)
    requires n <= |s| && forall i :: 0 <= i < |s| ==> IsUpper(s[i])
    ensures |Words(s, n)| == n && forall i :: 0 <= i < n ==> Words(s, n)[i] == ToLower(s[i])
  {
    if n > 0 {
      WordsOfCapitals(s, n - 1);
    }
  }

  /** A run of capitals is one word. */
  lemma CapitalsDoNotSplit(s: string)
    requires |s| < 64 && forall i :: 0 <= i < |s| ==> IsUpper(s[i])
    ensures |Normalize(s)| == |s| && forall i :: 0 <= i < |s| ==> Normalize(s)[i] == ToLower(s[i])
  {
    WordsOfCapitals(s, |s|);
  }

  // The loop.

  /** The buffer after n characters: the words so far, and a separator written as soon as it is met. */
  ghost predicate Built(s: string, n: nat, out: string, prevUnderscore: bool, prevLowerOrDigit: bool)
    requires n <= |s|
  {
    var w := Words(s, n);
    if |w| >= NAME_MAX - 1 then out == w[..NAME_MAX - 1]
    else
      && out == w + (if w != "" && prevUnderscore then "_" else "")
      && prevUnderscore == (w == "" || !IsAlnum(s[n - 1]))
      && prevLowerOrDigit == (n > 0 && (IsLower(s[n - 1]) || IsDigit(s[n - 1])))
  }

  lemma WordsNext(s: string, m: nat)
    requires m < |s|
    ensures var v, v' := Words(s, m), Words(s, m + 1);
            if !IsAlnum(s[m]) then v' == v
            else v < v' && (v != "" && m > 0 && !IsAlnum(s[m - 1]) ==> v + "_" <= v')
  {
  }

  lemma PrefixOfLonger(w: string, u: string, v: string)
    requires w <= u <= v
    ensures w <= v && (w + "_" <= u ==> w + "_" <= v)
  {
  }

  /** Words only grow; and once a separator has followed them, the next to come is set off by an
      underscore. */
  lemma {:induction false} WordsGrow(s: string, n: nat, m: nat)
    requires n <= m <= |s|
    ensures var w, v := Words(s, n), Words(s, m);
            && w <= v
            && (n > 0 && w != "" && !IsAlnum(s[n - 1]) ==>
                  (v == w && !IsAlnum(s[m - 1])) || w + "_" <= v)
  {
    hide *;
    if n < m {
      WordsGrow(s, n, m - 1);
      WordsNext(s, m - 1);
      PrefixOfLonger(Words(s, n), Words(s, m - 1), Words(s, m));
    }
  }

  /** Once the label ends, or the buffer is full, trimming gives the normal form. */
  lemma BuiltIsNormalized(s: string, n: nat, out: string, prevUnderscore: bool, prevLowerOrDigit: bool)
    requires n <= |s| && Built(s, n, out, prevUnderscore, prevLowerOrDigit)
    requires n == |s| || |out| == NAME_MAX - 1
    ensures TrimUnderscore(out) == Normalize(s)
  {
    var w, v := Words(s, n), Words(s, |s|);
    assert n == 0 ==> w == "";
    hide Words, Joined, IsAlnum, IsLower, IsDigit;
    WordsGrow(s, n, |s|);
    WordsAreJoined(s, n);
    WordsAreJoined(s, |s|);
    if |w| >= NAME_MAX - 1 {
      assert out == v[..NAME_MAX - 1];
    } else if n < |s| {
      assert out == w + "_";
      if v != w {
        assert v[..NAME_MAX - 1] == w + "_";
      }
    }
  }

  /** A letter or digit: a word break first where one is due and there is room, then the character. */
  lemma BuildAlnum(s: string, n: nat, out: string, prevUnderscore: bool, prevLowerOrDigit: bool)
    requires n < |s| && IsAlnum(s[n]) && |out| < NAME_MAX - 1
    requires Built(s, n, out, prevUnderscore, prevLowerOrDigit)
    ensures var c := s[n];
            var broken := if IsUpper(c) && prevLowerOrDigit && !prevUnderscore then out + "_" else out;
            var out' := if |broken| < NAME_MAX - 1 then broken + [ToLower(c)] else broken;
            |out'| < NAME_MAX && Built(s, n + 1, out', false, IsLower(c) || IsDigit(c))
  {
  }

  /** A separator, written once and not at the front. */
  lemma BuildSeparator(s: string, n: nat, out: string, prevUnderscore: bool, prevLowerOrDigit: bool)
    requires n < |s| && !IsAlnum(s[n]) && |out| < NAME_MAX - 1
    requires Built(s, n, out, prevUnderscore, prevLowerOrDigit)
    ensures Built(s, n + 1, if prevUnderscore then out else out + "_", true, false)
  {
  }

  method NormalizeRelType(s: string) returns (r: string)
    ensures r == Normalize(s)
  {
    var out := "";
    var prevUnderscore, prevLowerOrDigit := true, false;
    var i := 0;
    assert Built(s, 0, out, true, false);
    hide Built, Words, Normalize, IsAlnum, IsUpper, IsLower, IsDigit;
    while i < |s| && |out| < NAME_MAX - 1
      invariant 0 <= i <= |s| && |out| < NAME_MAX
      invariant Built(s, i, out, prevUnderscore, prevLowerOrDigit)
    {
      var c := s[i];
      if IsAlnum(c) {
        BuildAlnum(s, i, out, prevUnderscore, prevLowerOrDigit);
        if IsUpper(c) && prevLowerOrDigit && !prevUnderscore && |out| < NAME_MAX - 1 {
          out := out + "_";
        }
        if |out| < NAME_MAX - 1 {
          out := out + [ToLower(c)];
        }
        prevUnderscore := false;
        prevLowerOrDigit := IsLower(c) || IsDigit(c);
      } else {
        BuildSeparator(s, i, out, prevUnderscore, prevLowerOrDigit);
        if !prevUnderscore && |out| < NAME_MAX - 1 {
          out := out + "_";
          prevUnderscore := true;
        }
        prevLowerOrDigit := false;
      }
      i := i + 1;
    }
    r := TrimUnderscore(out);
    BuiltIsNormalized(s, i, out, prevUnderscore, prevLowerOrDigit);
  }

  // The seed table.

  const NODE_PERSON: nat := 10
  const NODE_PLACE: nat := 11
  const NODE_DEVICE: nat := 13
  const NODE_ORG: nat := 14
  const NODE_IP: nat := 15
  const NODE_SCALAR: nat := 16
  const NODE_OTHER: nat := 99

  datatype Sensitivity = Normal | Pii | Secret
  datatype Verdict = Accept | RejectKind | Novel | BadArg
  datatype RelTypeDef = RelTypeDef(relType: string, headKinds: seq<nat>, tailKinds: seq<nat>, sensitivity: Sensitivity)

  const SEED: seq<RelTypeDef> := [
    RelTypeDef("works_for", [NODE_PERSON], [NODE_ORG], Normal),
    RelTypeDef("member_of", [NODE_PERSON], [NODE_ORG], Normal),
    RelTypeDef("has_role", [NODE_PERSON], [NODE_SCALAR], Normal),
    RelTypeDef("spouse", [NODE_PERSON], [NODE_PERSON], Pii),
    RelTypeDef("knows", [NODE_PERSON], [NODE_PERSON], Pii),
    RelTypeDef("parent_of", [NODE_PERSON], [NODE_PERSON], Pii),
    RelTypeDef("child_of", [NODE_PERSON], [NODE_PERSON], Pii),
    RelTypeDef("lives_in", [NODE_PERSON], [NODE_PLACE], Pii),
    RelTypeDef("born_in", [NODE_PERSON], [NODE_PLACE], Pii),
    RelTypeDef("located_in", [NODE_OTHER], [NODE_PLACE], Normal),
    RelTypeDef("device_has_ip", [NODE_DEVICE], [NODE_IP], Normal),
    RelTypeDef("has_hostname", [NODE_DEVICE], [NODE_SCALAR], Normal),
    RelTypeDef("age", [NODE_PERSON], [NODE_SCALAR], Pii),
    RelTypeDef("also_known_as", [NODE_PERSON], [NODE_OTHER], Normal),
    RelTypeDef("supersedes", [NODE_OTHER], [NODE_OTHER], Normal),
    RelTypeDef("linked_policy", [NODE_OTHER], [NODE_OTHER], Normal),
    RelTypeDef("decided_by", [NODE_OTHER], [NODE_PERSON], Normal)
  ]

  function Find(table: seq<RelTypeDef>, norm: string): (r: Option<RelTypeDef>)
    ensures r.Some? ==> r.value in table && r.value.relType == norm
    ensures r.None? ==> forall i :: 0 <= i < |table| ==> table[i].relType != norm
  {
    if table == [] then None
    else if table[0].relType == norm then Some(table[0])
    else Find(table[1..], norm)
  }

  function SeedLookup(relType: string): Option<RelTypeDef> {
    if relType == "" then None else Find(SEED, Normalize(relType))
  }

  /** NODE_OTHER anywhere in the list admits every kind. */
  predicate KindAllowed(list: seq<nat>, kind: nat) {
    NODE_OTHER in list || kind in list
  }

  function GateCheck(head: nat, relType: string, tail: nat): Verdict {
    if relType == "" then BadArg
    else match SeedLookup(relType)
      case None => Novel
      case Some(def) =>
        if KindAllowed(def.headKinds, head) && KindAllowed(def.tailKinds, tail) then Accept else RejectKind
  }

  /** The gate's ladder: no label; a label the table does not know under its normal form; an end of a
      kind the row does not list, and lists no wildcard for; and otherwise the triple is accepted. */
  lemma GateMeaning(head: nat, relType: string, tail: nat)
    ensures GateCheck(head, relType, tail) == BadArg <==> relType == ""
    ensures GateCheck(head, relType, tail) == Novel <==>
              relType != "" && forall i :: 0 <= i < |SEED| ==> SEED[i].relType != Normalize(relType)
    ensures GateCheck(head, relType, tail) == Accept ==>
              exists i :: 0 <= i < |SEED| && SEED[i].relType == Normalize(relType) && Admits(SEED[i], head, tail)
    ensures GateCheck(head, relType, tail) == RejectKind ==>
              exists i :: 0 <= i < |SEED| && SEED[i].relType == Normalize(relType) && !Admits(SEED[i], head, tail)
  {
    var r := Find(SEED, Normalize(relType));
    hide SEED, Normalize, Find;
    if r.Some? {
      var i :| 0 <= i < |SEED| && SEED[i] == r.value;
    }
  }

  /** Each kind is listed at its own end, or a wildcard is. */
  ghost predicate Admits(def: RelTypeDef, head: nat, tail: nat) {
    && (head in def.headKinds || 99 in def.headKinds)
    && (tail in def.tailKinds || 99 in def.tailKinds)
  }

  /** A person works for an organization, however that is spelled, and not the other way round. */
  lemma WorksFor(ws: seq<Spelled>)
    requires AllSpell(ws) && Snake(ws) == "works_for"
    ensures GateCheck(NODE_PERSON, Label(ws), NODE_ORG) == Accept
    ensures GateCheck(NODE_ORG, Label(ws), NODE_PERSON) == RejectKind
  {
    SpellingsAgree(ws);
    assert Label(ws) != "" by {
      WordsOfLabel(ws);
    }
    hide Normalize, Snake, Label, AllSpell;
    assert SEED[0].relType == "works_for";
  }

  lemma SeedIsNamed(i: nat)
    requires i < |SEED|
    ensures |SEED[i].relType| > 0
  {
    hide Find;
  }

  lemma NoEmptyName()
    ensures Find(SEED, "") == None
  {
    var r := Find(SEED, "");
    hide Find, SEED;
    if r.Some? {
      var i :| 0 <= i < |SEED| && SEED[i] == r.value;
      SeedIsNamed(i);
    }
  }

  /** Looking a label up is looking its normal form up, though the look-up normalizes again. */
  lemma LookupByNormalForm(relType: string)
    ensures SeedLookup(Normalize(relType)) == SeedLookup(relType)
  {
    NormalizeImage(relType);
    hide Find, Normalize;
    NoEmptyName();
    assert Normalize("") == "" by {
      NormalIsFixed("");
    }
  }

  /** The gate judges a label as it judges its normal form, unless normalizing empties it. */
  lemma GateByNormalForm(head: nat, relType: string, tail: nat)
    ensures GateCheck(head, Normalize(relType), tail) == GateCheck(head, relType, tail)
       <==> Normalize(relType) != "" || relType == ""
  {
    LookupByNormalForm(relType);
    hide Find, SeedLookup;
    assert SeedLookup("") == None by {
      EmptyLookup();
    }
    assert Normalize("") == "" by {
      NormalIsFixed("");
    }
    hide Normalize;
  }

  lemma EmptyLookup()
    ensures SeedLookup("") == None
  {
  }

  // Sensitivity.

  const SECRET_TOKENS := ["password", "passwd", "passphrase", "secret", "api_key", "apikey", "access_key",
                          "private_key",
                          "privkey", "ssh_key", "token", "credential"]
  const PII_TOKENS := ["ssn", "social_security", "passport", "credit_card", "creditcard", "card_number", "cvv",
                       "bank_account", "account_number", "routing_number", "tax_id", "national_id", "drivers_license",
                       "license_number", "phone", "email", "date_of_birth", "birthdate", "dob", "home_address",
                       "street_address"]

  predicate StartsAt(haystack: string, i: nat, needle: string) {
    && i + |needle| <= |haystack|
    && forall k :: 0 <= k < |needle| ==> ToLower(haystack[i + k]) == ToLower(needle[k])
  }

  /** Substring, whatever the case. */
  predicate Contains(haystack: string, needle: string) {
    exists i :: 0 <= i <= |haystack| && StartsAt(haystack, i, needle)
  }

  predicate ContainsAny(haystack: string, tokens: seq<string>) {
    exists k :: 0 <= k < |tokens| && Contains(haystack, tokens[k])
  }

  function UnknownSensitivity(name: string): Sensitivity {
    if ContainsAny(name, SECRET_TOKENS) then Secret
    else if ContainsAny(name, PII_TOKENS) then Pii
    else Normal
  }

  function RelSensitivityOf(relType: string): Sensitivity {
    if relType == "" then Normal
    else
      var norm := Normalize(relType);
      if norm == "" then UnknownSensitivity(relType)
      else match SeedLookup(norm)
        case Some(def) => def.sensitivity
        case None => UnknownSensitivity(norm)
  }

  /** Every token starts with a letter, so a label without letters or digits holds none. */
  lemma NoToken(name: string, tokens: seq<string>)
    requires forall i :: 0 <= i < |name| ==> !IsAlnum(name[i])
    requires forall k :: 0 <= k < |tokens| ==> tokens[k] != "" && IsLower(tokens[k][0])
    ensures !ContainsAny(name, tokens)
  {
    forall k, i | 0 <= k < |tokens| && 0 <= i <= |name|
      ensures !StartsAt(name, i, tokens[k])
    {
      if i + |tokens[k]| <= |name| {
        assert ToLower(name[i + 0]) != ToLower(tokens[k][0]);
      }
    }
  }

  ghost predicate MentionsAt(norm: string, i: nat, token: string) {
    i + |token| <= |norm| && forall j :: 0 <= j < |token| ==> norm[i + j] == ToLower(token[j])
  }

  ghost predicate Mentions(norm: string, tokens: seq<string>) {
    exists k, i: nat :: 0 <= k < |tokens| && MentionsAt(norm, i, tokens[k])
  }

  lemma MentionsMeaning(norm: string, tokens: seq<string>)
    requires forall i :: 0 <= i < |norm| ==> !IsUpper(norm[i])
    ensures ContainsAny(norm, tokens) <==> Mentions(norm, tokens)
  {
    forall k, i: nat | 0 <= k < |tokens|
      ensures StartsAt(norm, i, tokens[k]) <==> MentionsAt(norm, i, tokens[k])
    {
    }
    assert forall k, i: nat :: 0 <= k < |tokens| && MentionsAt(norm, i, tokens[k]) ==> i <= |norm|;
    hide StartsAt, MentionsAt;
    if ContainsAny(norm, tokens) {
      var k :| 0 <= k < |tokens| && Contains(norm, tokens[k]);
      var i :| 0 <= i <= |norm| && StartsAt(norm, i, tokens[k]);
      assert MentionsAt(norm, i, tokens[k]);
    }
    if Mentions(norm, tokens) {
      var k, i: nat :| 0 <= k < |tokens| && MentionsAt(norm, i, tokens[k]);
      assert StartsAt(norm, i, tokens[k]);
      assert Contains(norm, tokens[k]);
    }
  }

  /** A label with a letter or digit: a known relation has its row's tier, and an unknown one is a
      secret when its normal form mentions a credential, else personal when it mentions a regulated
      identifier, else normal. */
  lemma SensitivityMeaning(relType: string)
    requires Normalize(relType) != ""
    ensures var norm, tier := Normalize(relType), RelSensitivityOf(relType);
            && (tier == Secret ==> Mentions(norm, SECRET_TOKENS))
            && (forall i :: 0 <= i < |SEED| && SEED[i].relType == norm ==>
                  exists j :: 0 <= j < |SEED| && SEED[j].relType == norm && tier == SEED[j].sensitivity)
            && ((forall i :: 0 <= i < |SEED| ==> SEED[i].relType != norm) ==>
                  tier == if Mentions(norm, SECRET_TOKENS) then Secret
                          else if Mentions(norm, PII_TOKENS) then Pii else Normal)
  {
    var norm := Normalize(relType);
    NormalizeIsNormal(relType);
    NormalIsFixed(norm);
    assert forall i :: 0 <= i < |norm| ==> NameChar(norm[i]) && !IsUpper(norm[i]);
    MentionsMeaning(norm, SECRET_TOKENS);
    MentionsMeaning(norm, PII_TOKENS);
    NoSecretRow();
    var r := Find(SEED, norm);
    hide SEED, SECRET_TOKENS, PII_TOKENS, Normalize, Find, ContainsAny, Mentions;
    if r.Some? {
      var j :| 0 <= j < |SEED| && SEED[j] == r.value;
    }
  }

  lemma NoSecretRow()
    ensures forall i :: 0 <= i < |SEED| ==> SEED[i].sensitivity != Secret
  {
  }

  /** Normalizing empties exactly the labels without letters or digits. */
  lemma {:induction false} WordsEmpty(s: string, n: nat)
    requires n <= |s|
    ensures Words(s, n) == "" <==> forall i :: 0 <= i < n ==> !IsAlnum(s[i])
  {
    if n > 0 {
      WordsEmpty(s, n - 1);
    }
  }

  lemma EmptiedLabels(s: string)
    ensures Normalize(s) == "" <==> forall i :: 0 <= i < |s| ==> !IsAlnum(s[i])
  {
    WordsEmpty(s, |s|);
    WordsAreJoined(s, |s|);
  }

  /** A label and its normal form are equally sensitive, always. */
  lemma SensitivityByNormalForm(relType: string)
    ensures RelSensitivityOf(Normalize(relType)) == RelSensitivityOf(relType)
  {
    NormalizeImage(relType);
    if Normalize(relType) == "" && relType != "" {
      EmptiedLabels(relType);
      NoToken(relType, SECRET_TOKENS);
      NoToken(relType, PII_TOKENS);
    }
    hide Normalize, SeedLookup, ContainsAny;
  }
}
