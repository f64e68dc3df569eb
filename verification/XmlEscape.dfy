/** Escaping text for an XML context, into a buffer of fixed size. */
module XmlEscape {
  /** A C string: no character of it is the terminator. */
  type CString = s: string | '\0' !in s

  function Entity(c: char): (e: string)
    ensures 1 <= |e| <= 6
  {
    match c
    case '&' => "&amp;"
    case '<' => "&lt;"
    case '>' => "&gt;"
    case '"' => "&quot;"
    case _ => [c]
  }

  function Escape(s: string): (e: string)
    ensures |e| >= |s|
  {
    if s == "" then "" else Entity(s[0]) + Escape(s[1..])
  }

  function Unescape(e: string): string {
    if e == "" then ""
    else if "&amp;" <= e then "&" + Unescape(e[5..])
    else if "&lt;" <= e then "<" + Unescape(e[4..])
    else if "&gt;" <= e then ">" + Unescape(e[4..])
    else if "&quot;" <= e then "\"" + Unescape(e[6..])
    else [e[0]] + Unescape(e[1..])
  }

  lemma UnescapeEntity(c: char, e: string)
    ensures Unescape(Entity(c) + e) == [c] + Unescape(e)
  {
    var t := Entity(c) + e;
    assert t[|Entity(c)|..] == e;
    if c == '&' {
      assert "&amp;" <= t;
    } else if c == '<' {
      assert t[1] == 'l' && "&lt;" <= t;
    } else if c == '>' {
      assert t[1] == 'g' && "&gt;" <= t;
    } else if c == '"' {
      assert t[1] == 'q' && "&quot;" <= t;
    } else {
      assert t[0] == c != '&';
    }
  }

  /** Unescaping gives the text back. */
  lemma {:induction false} EscapeRoundTrip(s: string)
    ensures Unescape(Escape(s)) == s
  {
    if s != "" {
      EscapeRoundTrip(s[1..]);
      UnescapeEntity(s[0], Escape(s[1..]));
    }
  }

  /** Each entity stands for the character XML 1.0 predefines it for. */
  lemma PredefinedEntities(e: string)
    ensures Unescape("&amp;" + e) == "&" + Unescape(e) && Unescape("&lt;" + e) == "<" + Unescape(e)
    ensures Unescape("&gt;" + e) == ">" + Unescape(e) && Unescape("&quot;" + e) == "\"" + Unescape(e)
  {
    UnescapeEntity('&', e);
    UnescapeEntity('<', e);
    UnescapeEntity('>', e);
    UnescapeEntity('"', e);
  }

  predicate IsEntity(e: string) {
    e == "&amp;" || e == "&lt;" || e == "&gt;" || e == "&quot;"
  }

  /** No markup character is left raw: an ampersand stands only at the start of a whole entity. */
  lemma {:induction false} EscapeIsClean(s: string, i: nat)
    requires i < |Escape(s)|
    ensures Escape(s)[i] != '<' && Escape(s)[i] != '>' && Escape(s)[i] != '"'
    ensures Escape(s)[i] == '&' ==> exists j :: i < j <= |Escape(s)| && IsEntity(Escape(s)[i..j])
  {
    EscapeNothing();
    assert s != "";
    EscapeHead(s);
    hide *;
    var e, rest := Entity(s[0]), Escape(s[1..]);
    if i < |e| {
      EntityIsClean(s[0], i);
      if Escape(s)[i] == '&' {
        assert Escape(s)[0..|e|] == e;
      }
    } else {
      EscapeIsClean(s[1..], i - |e|);
      if rest[i - |e|] == '&' {
        var j :| i - |e| < j <= |rest| && IsEntity(rest[i - |e|..j]);
        assert Escape(s)[i..j + |e|] == rest[i - |e|..j];
      }
    }
  }

  lemma EntityIsClean(c: char, i: nat)
    requires i < |Entity(c)|
    ensures Entity(c)[i] != '<' && Entity(c)[i] != '>' && Entity(c)[i] != '"'
    ensures Entity(c)[i] == '&' ==> i == 0 && IsEntity(Entity(c))
  {
  }

  lemma EscapeNothing()
    ensures Escape("") == ""
  {
  }

  lemma EscapeHead(s: string)
    requires s != ""
    ensures Escape(s) == Entity(s[0]) + Escape(s[1..])
  {
  }

  lemma {:induction false} EscapeConcat(a: string, b: string)
    ensures Escape(a + b) == Escape(a) + Escape(b)
  {
    EscapeNothing();
    hide *;
    if a == "" {
      assert a + b == b;
    } else {
      EscapeConcat(a[1..], b);
      EscapeHead(a);
      EscapeHead(a + b);
      assert (a + b)[0] == a[0] && (a + b)[1..] == a[1..] + b;
    }
  }

  lemma EscapeNext(s: string, k: nat)
    requires k < |s|
    ensures Escape(s[..k + 1]) == Escape(s[..k]) + Entity(s[k])
  {
    assert s[..k + 1] == s[..k] + [s[k]];
    EscapeConcat(s[..k], [s[k]]);
    assert Escape([s[k]]) == Entity(s[k]);
  }

  /** The escape of the first k characters fits the room, and that of no longer prefix does. */
  ghost predicate LongestFit(s: string, k: nat, room: nat) {
    && k <= |s|
    && |Escape(s[..k])| <= room
    && (k < |s| ==> |Escape(s[..k + 1])| > room)
  }

  lemma {:induction false} EscapeGrows(s: string, j: nat, k: nat)
    requires j <= k <= |s|
    ensures |Escape(s[..j])| <= |Escape(s[..k])|
  {
    if j < k {
      EscapeGrows(s, j, k - 1);
      EscapeNext(s, k - 1);
    }
  }

  /** Nothing is cut that would have fitted; with room for the whole escape nothing is cut at all. */
  lemma LongestFitIsLongest(s: string, k: nat, room: nat)
    requires LongestFit(s, k, room)
    ensures forall j :: 0 <= j <= |s| && |Escape(s[..j])| <= room ==> j <= k
    ensures |Escape(s)| <= room <==> s[..k] == s
  {
    forall j | 0 <= j <= |s| && |Escape(s[..j])| <= room
      ensures j <= k
    {
      if j > k {
        EscapeGrows(s, k + 1, j);
      }
    }
    assert s[..|s|] == s;
  }

  /** The buffer ends up holding the escape of the longest prefix that fits beside the terminator. */
  method EscapeText(src: CString, dst: array<char>) returns (ghost k: nat)
    modifies dst
    ensures dst.Length > 0 ==>
              && LongestFit(src, k, dst.Length - 1)
              && dst[..|Escape(src[..k])|] == Escape(src[..k])
              && dst[|Escape(src[..k])|] == '\0'
  {
    k := 0;
    if dst.Length == 0 {
      return;
    }
    dst[0] := '\0';
    var used, p := 0, 0;
    EscapeNothing();
    hide Escape;
    while p < |src| && used + 1 < dst.Length
      invariant 0 <= p <= |src| && 0 <= used < dst.Length
      invariant used == |Escape(src[..p])| && dst[..used] == Escape(src[..p])
    {
      var rep := Entity(src[p]);
      EscapeNext(src, p);
      OneCharacter(src[p]);
      if |rep| > 1 {
        if used + |rep| >= dst.Length {
          break;
        }
        CopyAt(dst, used, rep);
        used := used + |rep|;
      } else {
        dst[used] := src[p];
        used := used + 1;
      }
      p := p + 1;
    }
    k := p;
    if p < |src| {
      EscapeNext(src, p);
    }
    dst[used] := '\0';
  }

  lemma OneCharacter(c: char)
    ensures |Entity(c)| == 1 ==> Entity(c) == [c]
  {
  }

  method CopyAt(dst: array<char>, at: nat, rep: string)
    requires at + |rep| <= dst.Length
    modifies dst
    ensures dst[..at + |rep|] == old(dst[..at]) + rep
    ensures forall i :: at + |rep| <= i < dst.Length ==> dst[i] == old(dst[i])
  {
    for i := 0 to |rep|
      invariant dst[..at + i] == old(dst[..at]) + rep[..i]
      invariant forall h :: at + |rep| <= h < dst.Length ==> dst[h] == old(dst[h])
    {
      dst[at + i] := rep[i];
    }
  }
}
