/**
 Byte texts, whitespace splitting (`strings.Fields`) and ASCII lower-casing
 (`strings.ToLower`) as the fragment miner uses them, and the miner's fixed
 stop-word set with its "every word is a stop word" test (plagio1.go:86-103).
 */
module Words {

  /** One byte of a Go string. */
  type Byte = c: char | c as int < 256 witness 'a'

  /** A Go string: its length is its number of bytes. */
  type Text = seq<Byte>

  /** The ASCII white space `strings.Fields` splits on: tab, line feed,
      vertical tab, form feed, carriage return and space. */
  predicate IsSpace(c: Byte)
  {
    c == ' ' || (9 <= c as int <= 13)
  }

  predicate IsUpper(c: Byte)
  {
    'A' <= c <= 'Z'
  }

  function LowerByte(c: Byte): (d: Byte)
    ensures !IsUpper(d)
    ensures IsUpper(c) ==> d as int == c as int + 32
    ensures !IsUpper(c) ==> d == c
  {
    if IsUpper(c) then (c as int + 32) as char else c
  }

  /** ASCII `strings.ToLower`: maps every upper-case letter to its lower-case
      form and keeps every other byte. */
  function Lower(w: Text): (r: Text)
    ensures |r| == |w|
    ensures forall k :: 0 <= k < |w| ==> r[k] == LowerByte(w[k])
  {
    if |w| == 0 then [] else [LowerByte(w[0])] + Lower(w[1..])
  }

  /** Length of the leading run of non-space bytes. */
  function WordLength(s: Text): (n: nat)
    ensures n <= |s|
    ensures forall k :: 0 <= k < n ==> !IsSpace(s[k])
    ensures n < |s| ==> IsSpace(s[n])
  {
    if |s| == 0 || IsSpace(s[0]) then 0 else 1 + WordLength(s[1..])
  }

  /** `strings.Fields`: the maximal runs of non-space bytes, in order. */
  function Fields(s: Text): (words: seq<Text>)
    decreases |s|
  {
    if |s| == 0 then []
    else if IsSpace(s[0]) then Fields(s[1..])
    else
      var n := WordLength(s);
      [s[..n]] + Fields(s[n..])
  }

  /** A word as `strings.Fields` produces it: non-empty, no white space. */
  predicate IsWord(w: Text)
  {
    |w| > 0 && forall k :: 0 <= k < |w| ==> !IsSpace(w[k])
  }

  /** The bytes of `s` that are not white space, in order. */
  function NonSpace(s: Text): Text
  {
    if |s| == 0 then [] else (if IsSpace(s[0]) then [] else [s[0]]) + NonSpace(s[1..])
  }

  function Concat(ws: seq<Text>): Text
  {
    if |ws| == 0 then [] else ws[0] + Concat(ws[1..])
  }

  lemma {:induction false} ConcatAppend(ws: seq<Text>, vs: seq<Text>)
    ensures Concat(ws + vs) == Concat(ws) + Concat(vs)
  {
    if |ws| == 0 {
      assert ws + vs == vs;
    } else {
      assert (ws + vs)[0] == ws[0];
      assert (ws + vs)[1..] == ws[1..] + vs;
      ConcatAppend(ws[1..], vs);
    }
  }

  lemma {:induction false} NonSpaceAppend(s: Text, t: Text)
    ensures NonSpace(s + t) == NonSpace(s) + NonSpace(t)
  {
    if |s| == 0 {
      assert s + t == t;
    } else {
      assert (s + t)[0] == s[0];
      assert (s + t)[1..] == s[1..] + t;
      NonSpaceAppend(s[1..], t);
    }
  }

  /** `Fields` splits exactly: every field is a word, and gluing the fields
      together gives back the text with its white space dropped. */
  lemma {:induction false} FieldsPartition(s: Text)
    ensures forall w :: w in Fields(s) ==> IsWord(w)
    ensures Concat(Fields(s)) == NonSpace(s)
    decreases |s|
  {
    if |s| == 0 {
    } else if IsSpace(s[0]) {
      FieldsPartition(s[1..]);
    } else {
      var n := WordLength(s);
      FieldsPartition(s[n..]);
      assert Concat([s[..n]]) == s[..n];
      ConcatAppend([s[..n]], Fields(s[n..]));
      NonSpaceAppend(s[..n], s[n..]);
      assert s[..n] + s[n..] == s;
      NonSpaceOfWord(s[..n]);
    }
  }

  lemma {:induction false} NonSpaceOfWord(w: Text)
    requires forall k :: 0 <= k < |w| ==> !IsSpace(w[k])
    ensures NonSpace(w) == w
  {
    if |w| > 0 {
      NonSpaceOfWord(w[1..]);
      assert [w[0]] + w[1..] == w;
    }
  }

  /** A text made only of white space has no fields. */
  lemma {:induction false} BlankHasNoFields(s: Text)
    requires forall k :: 0 <= k < |s| ==> IsSpace(s[k])
    ensures Fields(s) == []
  {
    if |s| > 0 {
      BlankHasNoFields(s[1..]);
    }
  }

  /** `WordLength` is the only length with its three properties. */
  lemma WordLengthUnique(s: Text, n: nat)
    requires n <= |s|
    requires forall k :: 0 <= k < n ==> !IsSpace(s[k])
    requires n < |s| ==> IsSpace(s[n])
    ensures WordLength(s) == n
  {
  }

  /** A word is its own single field. */
  lemma FieldsOfWord(w: Text)
    requires IsWord(w)
    ensures Fields(w) == [w]
  {
    WordLengthUnique(w, |w|);
    assert w[..|w|] == w;
    assert w[|w|..] == [];
  }

  /** Fields never straddle white space: splitting at a white-space byte
      splits the fields. With `BlankHasNoFields` and `FieldsOfWord` this
      makes the fields exactly the maximal runs of non-space bytes. */
  lemma {:induction false} FieldsSplitAtSpace(u: Text, c: Byte, v: Text)
    requires IsSpace(c)
    ensures Fields(u + [c] + v) == Fields(u) + Fields(v)
    decreases |u|
  {
    var s := u + [c] + v;
    if |u| == 0 {
      assert s == [c] + v;
      assert s[1..] == v;
    } else if IsSpace(u[0]) {
      assert s[0] == u[0];
      assert s[1..] == u[1..] + [c] + v;
      FieldsSplitAtSpace(u[1..], c, v);
    } else {
      var n := WordLength(u);
      assert s[0] == u[0];
      forall k | 0 <= k < n
        ensures !IsSpace(s[k])
      {
        assert s[k] == u[k];
      }
      if n < |u| {
        assert s[n] == u[n];
      } else {
        assert s[n] == c;
      }
      WordLengthUnique(s, n);
      assert s[..n] == u[..n];
      assert s[n..] == u[n..] + [c] + v;
      FieldsSplitAtSpace(u[n..], c, v);
      assert Fields(s) == [u[..n]] + (Fields(u[n..]) + Fields(v));
    }
  }

  /** The stop words written into `findAllLCS` (line 87). */
  const StopWords: set<Text> := {
    "the", "is", "in", "it", "and", "to", "of", "a", "that", "I", "you", "he", "she",
    "they", "we", "be", "have", "has", "with", "for", "on", "at", "by", "this", "from",
    "or", "as", "an", "if"
  }

  /** The loop of lines 97-103: true until a word whose lower-case form is not
      a stop word is met. */
  function AllStopWords(words: seq<Text>): (all: bool)
    ensures all <==> forall k :: 0 <= k < |words| ==> Lower(words[k]) in StopWords
  {
    if |words| == 0 then true
    else if Lower(words[0]) !in StopWords then false
    else assert forall k :: 1 <= k < |words| ==> words[k] == words[1..][k - 1]; AllStopWords(words[1..])
  }

  /** A match the miner keeps: some word of it, lower-cased, is not a stop word. */
  ghost predicate HasContentWord(s: Text)
  {
    exists k :: 0 <= k < |Fields(s)| && Lower(Fields(s)[k]) !in StopWords
  }

  /** The entry "I" is never looked up successfully: lower-casing removes
      every upper-case byte, so the set behaves as if "I" were absent. */
  lemma CapitalIIsInert(w: Text)
    ensures Lower(w) != "I"
    ensures Lower(w) in StopWords <==> Lower(w) in StopWords - {"I"}
  {
  }

  /** White space alone is always discarded: with no words, the stop-word test passes. */
  lemma BlankIsAllStopWords(s: Text)
    requires forall k :: 0 <= k < |s| ==> IsSpace(s[k])
    ensures AllStopWords(Fields(s))
  {
    BlankHasNoFields(s);
  }
}
