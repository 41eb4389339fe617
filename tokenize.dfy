/** The normalisation shared by the keyword ranker and the phrase builder:
    `s.lower()`, then `re.sub(r'[^\w\s]', '', s)`, then `s.split()`. */
module Tokenize {
  import opened CharClasses

  predicate SpaceFree(w: string) {
    forall i :: 0 <= i < |w| ==> !IsSpace(w[i])
  }

  /** `re.sub(r'[^\w\s]', '', s)`: every character that is neither a word
      character nor whitespace is deleted (not replaced by a separator). */
  function StripPunctuation(s: string): (r: string)
    ensures forall i :: 0 <= i < |r| ==> IsWordChar(r[i]) || IsSpace(r[i])
    ensures forall c :: c in r ==> c in s
  {
    if s == [] then []
    else
      assert forall c :: c in s[1..] ==> c in s;
      (if IsWordChar(s[0]) || IsSpace(s[0]) then [s[0]] else []) + StripPunctuation(s[1..])
  }

  /** Only the deleted class goes: every word character and every whitespace
      character of `s` survives, as many times as it occurs. */
  lemma {:induction false} StripPunctuationKeeps(s: string, c: char)
    requires IsWordChar(c) || IsSpace(c)
    ensures multiset(StripPunctuation(s))[c] == multiset(s)[c]
  {
    if s != [] {
      StripPunctuationKeeps(s[1..], c);
      assert s == [s[0]] + s[1..];
    }
  }

  /** End of the run of non-whitespace characters that starts at `i`. */
  function TokenEnd(s: string, i: nat): (e: nat)
    requires i <= |s|
    ensures i <= e <= |s|
    ensures SpaceFree(s[i..e])
    ensures e == |s| || IsSpace(s[e])
    decreases |s| - i
  {
    if i < |s| && !IsSpace(s[i]) then TokenEnd(s, i + 1) else i
  }

  /** `s` with its whitespace deleted. */
  function RemoveSpaces(s: string): string {
    if s == [] then []
    else (if IsSpace(s[0]) then [] else [s[0]]) + RemoveSpaces(s[1..])
  }

  function Concat(ws: seq<string>): string {
    if ws == [] then [] else ws[0] + Concat(ws[1..])
  }

  /** `" ".join(ws)`. */
  function JoinSpaces(ws: seq<string>): string {
    if ws == [] then []
    else if |ws| == 1 then ws[0]
    else ws[0] + " " + JoinSpaces(ws[1..])
  }

  lemma {:induction false} RemoveSpacesAppend(a: string, b: string)
    ensures RemoveSpaces(a + b) == RemoveSpaces(a) + RemoveSpaces(b)
  {
    if a != [] {
      assert (a + b)[0] == a[0] && (a + b)[1..] == a[1..] + b;
      RemoveSpacesAppend(a[1..], b);
      var h := if IsSpace(a[0]) then [] else [a[0]];
      calc {
        RemoveSpaces(a + b);
        h + RemoveSpaces(a[1..] + b);
        h + (RemoveSpaces(a[1..]) + RemoveSpaces(b));
        (h + RemoveSpaces(a[1..])) + RemoveSpaces(b);
      }
    } else {
      assert a + b == b;
    }
  }

  lemma {:induction false} RemoveSpacesOfSpaceFree(w: string)
    requires SpaceFree(w)
    ensures RemoveSpaces(w) == w
  {
    if w != [] {
      RemoveSpacesOfSpaceFree(w[1..]);
    }
  }

  /** `s.split()`: the maximal runs of non-whitespace characters, in order.
      The tokens are non-empty, contain no whitespace, and together spell
      `s` with its whitespace removed. */
  function Split(s: string): (ws: seq<string>)
    ensures forall k :: 0 <= k < |ws| ==> ws[k] != [] && SpaceFree(ws[k])
    ensures forall k, c :: 0 <= k < |ws| && c in ws[k] ==> c in s
    ensures Concat(ws) == RemoveSpaces(s)
    decreases |s|
  {
    if s == [] then []
    else if IsSpace(s[0]) then
      assert forall c :: c in s[1..] ==> c in s;
      Split(s[1..])
    else
      var e := TokenEnd(s, 0);
      assert s == s[..e] + s[e..];
      RemoveSpacesAppend(s[..e], s[e..]);
      RemoveSpacesOfSpaceFree(s[..e]);
      [s[..e]] + Split(s[e..])
  }

  /** Splitting undoes joining with single spaces, for tokens `split()` can
      produce. In particular a space-joined n-gram splits back into its words. */
  lemma {:induction false} SplitJoin(ws: seq<string>)
    requires forall k :: 0 <= k < |ws| ==> ws[k] != [] && SpaceFree(ws[k])
    ensures Split(JoinSpaces(ws)) == ws
  {
    if ws != [] {
      var w := ws[0];
      var s := JoinSpaces(ws);
      if |ws| == 1 {
        assert s[..|w|] == w;
        assert TokenEnd(s, 0) == |w|;
        assert s[|w|..] == [];
      } else {
        var rest := JoinSpaces(ws[1..]);
        assert s == w + " " + rest;
        assert s[..|w|] == w;
        assert IsSpace(s[|w|]);
        assert TokenEnd(s, 0) == |w|;
        assert s[|w|..] == " " + rest;
        assert (" " + rest)[1..] == rest;
        SplitJoin(ws[1..]);
        assert ws == [w] + ws[1..];
      }
    }
  }

  /** A run that ends at whitespace or at the end of the string is where
      `TokenEnd` stops. */
  lemma TokenEndIs(s: string, e: nat)
    requires e <= |s| && SpaceFree(s[..e])
    requires e == |s| || IsSpace(s[e])
    ensures TokenEnd(s, 0) == e
  {
    assert forall k :: 0 <= k < e ==> s[..e][k] == s[k];
    assert forall k :: 0 <= k < TokenEnd(s, 0) ==> s[..TokenEnd(s, 0)][k] == s[k];
  }

  /** Whitespace separates: splitting at a whitespace character splits the
      two sides apart. With `SplitWord` and `Split("") == []` this fixes
      `split()` as the maximal runs of non-whitespace. */
  lemma {:induction false} SplitAtSpace(a: string, c: char, b: string)
    requires IsSpace(c)
    ensures Split(a + [c] + b) == Split(a) + Split(b)
    decreases |a|
  {
    if a == [] {
      SplitSkipsSpace(c, b);
      assert a + [c] + b == [c] + b;
    } else if IsSpace(a[0]) {
      SplitAtSpace(a[1..], c, b);
      SplitAtSpaceAfterSpace(a, c, b);
    } else {
      var e := TokenEnd(a, 0);
      SplitAtSpace(a[e..], c, b);
      SplitAtSpaceAfterToken(a, c, b, e);
    }
  }

  lemma SplitAtSpaceAfterSpace(a: string, c: char, b: string)
    requires IsSpace(c) && a != [] && IsSpace(a[0])
    requires Split(a[1..] + [c] + b) == Split(a[1..]) + Split(b)
    ensures Split(a + [c] + b) == Split(a) + Split(b)
  {
    ConsAround(a, c, b);
    SplitSkipsSpace(a[0], a[1..] + [c] + b);
    SplitSkipsSpace(a[0], a[1..]);
  }

  lemma SplitAtSpaceAfterToken(a: string, c: char, b: string, e: nat)
    requires IsSpace(c) && a != [] && !IsSpace(a[0]) && e == TokenEnd(a, 0)
    requires Split(a[e..] + [c] + b) == Split(a[e..]) + Split(b)
    ensures Split(a + [c] + b) == Split(a) + Split(b)
  {
    DropAround(a, c, b, e);
    SplitFirstToken(a, e);
    SplitFirstTokenBeforeSpace(a, c, b, e);
    AppendAssoc([a[..e]], Split(a[e..]), Split(b));
  }

  lemma ConsAround(a: string, c: char, b: string)
    requires a != []
    ensures a == [a[0]] + a[1..]
    ensures a + [c] + b == [a[0]] + (a[1..] + [c] + b)
  {
  }

  lemma AppendAssoc(x: seq<string>, y: seq<string>, z: seq<string>)
    ensures x + (y + z) == (x + y) + z
  {
  }

  lemma DropAround(a: string, c: char, b: string, e: nat)
    requires e <= |a|
    ensures (a + [c] + b)[e..] == a[e..] + [c] + b
  {
  }

  lemma SplitSkipsSpace(c: char, b: string)
    requires IsSpace(c)
    ensures Split([c] + b) == Split(b)
  {
    assert ([c] + b)[1..] == b;
  }

  lemma SplitFirstToken(s: string, e: nat)
    requires s != [] && !IsSpace(s[0]) && e == TokenEnd(s, 0)
    ensures Split(s) == [s[..e]] + Split(s[e..])
  {
  }

  /** A token that ends inside `a`, or at the whitespace after it, is the
      first token of `a + [c] + b`. */
  lemma SplitFirstTokenBeforeSpace(a: string, c: char, b: string, e: nat)
    requires IsSpace(c) && a != [] && !IsSpace(a[0]) && e == TokenEnd(a, 0)
    ensures Split(a + [c] + b) == [a[..e]] + Split((a + [c] + b)[e..])
  {
    var s := a + [c] + b;
    assert s[..e] == a[..e];
    if e < |a| {
      assert s[e] == a[e];
    } else {
      assert s[e] == c;
    }
    TokenEndIs(s, e);
    assert s[0] == a[0];
    SplitFirstToken(s, e);
  }

  /** The normalised tokens of `text`: lower-cased, punctuation deleted, split
      on whitespace. */
  function Tokens(text: string): (ws: seq<string>)
    ensures forall k :: 0 <= k < |ws| ==> ws[k] != [] && SpaceFree(ws[k])
  {
    Split(StripPunctuation(Lower(text)))
  }

  /** Every token is a non-empty run of word characters with no ASCII capital
      letter and no whitespace: punctuation never survives into a token. */
  lemma TokensAreWords(text: string)
    ensures forall k :: 0 <= k < |Tokens(text)| ==>
      && Tokens(text)[k] != []
      && forall i :: 0 <= i < |Tokens(text)[k]| ==>
           IsWordChar(Tokens(text)[k][i]) && !IsSpace(Tokens(text)[k][i]) && !IsAsciiUpper(Tokens(text)[k][i])
  {
    var low := Lower(text);
    var stripped := StripPunctuation(low);
    var ws := Split(stripped);
    forall k, i | 0 <= k < |ws| && 0 <= i < |ws[k]|
      ensures IsWordChar(ws[k][i]) && !IsSpace(ws[k][i]) && !IsAsciiUpper(ws[k][i])
    {
      var c := ws[k][i];
      assert c in ws[k];
      assert c in stripped;
      var j :| 0 <= j < |stripped| && stripped[j] == c;
      assert c in low;
      var j' :| 0 <= j' < |low| && low[j'] == c;
    }
  }

  lemma {:induction false} StripPunctuationAppend(a: string, b: string)
    ensures StripPunctuation(a + b) == StripPunctuation(a) + StripPunctuation(b)
  {
    if a == [] {
      assert a + b == b;
    } else {
      assert (a + b)[0] == a[0] && (a + b)[1..] == a[1..] + b;
      StripPunctuationAppend(a[1..], b);
    }
  }

  /** Text made of word characters only loses nothing. */
  lemma {:induction false} StripPunctuationOfWord(s: string)
    requires forall i :: 0 <= i < |s| ==> IsWordChar(s[i])
    ensures StripPunctuation(s) == s
  {
    if s != [] {
      StripPunctuationOfWord(s[1..]);
    }
  }

  lemma StripAroundPunctuation(a: string, p: char, b: string)
    requires forall i :: 0 <= i < |a| ==> IsWordChar(a[i])
    requires forall i :: 0 <= i < |b| ==> IsWordChar(b[i])
    requires !IsWordChar(p) && !IsSpace(p)
    ensures StripPunctuation(a + [p] + b) == a + b
  {
    assert [p][1..] == [];
    assert StripPunctuation([p]) == [];
    StripPunctuationAppend(a, [p]);
    StripPunctuationOfWord(a);
    assert StripPunctuation(a + [p]) == a;
    StripPunctuationAppend(a + [p], b);
    StripPunctuationOfWord(b);
  }

  lemma LowerAppend(a: string, p: char, b: string)
    ensures Lower(a + [p] + b) == Lower(a) + [Fold(p)] + Lower(b)
  {
  }

  /** A single word splits into itself. */
  lemma SplitWord(w: string)
    requires w != [] && SpaceFree(w)
    ensures Split(w) == [w]
  {
    assert JoinSpaces([w]) == w;
    SplitJoin([w]);
  }

  /** The characters of one token: word characters, no whitespace, no ASCII
      capital. */
  lemma TokenIsWord(text: string, w: string)
    requires w in Tokens(text)
    ensures w != []
    ensures forall i :: 0 <= i < |w| ==> IsWordChar(w[i]) && !IsSpace(w[i]) && !IsAsciiUpper(w[i])
  {
    TokensAreWords(text);
    var k :| 0 <= k < |Tokens(text)| && Tokens(text)[k] == w;
  }

  /** Deleting punctuation joins the pieces it separated: "e-mail" is the one
      token "email", not the two tokens "e" and "mail". */
  lemma PunctuationIsDeleted(a: string, p: char, b: string)
    requires a != [] && forall i :: 0 <= i < |a| ==> IsWordChar(a[i])
    requires forall i :: 0 <= i < |b| ==> IsWordChar(b[i])
    requires !IsWordChar(p) && !IsSpace(p)
    ensures Tokens(a + [p] + b) == [Lower(a) + Lower(b)]
  {
    LowerAppend(a, p, b);
    StripAroundPunctuation(Lower(a), Fold(p), Lower(b));
    var w := Lower(a) + Lower(b);
    assert w[0] == Lower(a)[0];
    assert forall i :: 0 <= i < |w| ==> IsWordChar(w[i]);
    SplitWord(w);
  }

  /** Empty text has no tokens. */
  lemma EmptyTextHasNoTokens()
    ensures Tokens("") == []
  {
    assert Lower("") == "";
  }
}
