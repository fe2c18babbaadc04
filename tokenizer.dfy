/**
 * getQueryParts: splitting a search query into its words, with commas and
 * spaces as equivalent separators.
 */
module Tokenizer {
  import opened Text
  import opened Criteria

  /** query.replace(",", " ") */
  function ReplaceCommas(s: string): (r: string)
    decreases |s|
  {
    if s == [] then [] else [if s[0] == ',' then ' ' else s[0]] + ReplaceCommas(s[1..])
  }

  /** A piece is kept when it does not trim to nothing. */
  predicate IsQueryPart(piece: string) {
    |Trim(piece)| > 0
  }

  /** The pieces that are kept, in order. */
  function KeepQueryParts(pieces: seq<string>): seq<string>
    decreases |pieces|
  {
    if |pieces| == 0 then []
    else
      var last := pieces[|pieces| - 1];
      KeepQueryParts(pieces[..|pieces| - 1]) + (if IsQueryPart(last) then [last] else [])
  }

  /** The words of a (non-null) query. */
  function QueryParts(query: string): seq<string> {
    KeepQueryParts(JavaSplit(ReplaceCommas(query), ' '))
  }

  /** getQueryParts: null is rejected; otherwise the query's words. */
  method GetQueryParts(query: Option<string>) returns (r: Result<seq<string>>)
    ensures query.None? ==> r == Failure(IllegalArgument("query must not be null"))
    ensures query.Some? ==> r == Success(QueryParts(query.value))
  {
    if query.None? {
      return Failure(IllegalArgument("query must not be null"));
    }
    var replaced := ReplaceCommas(query.value);
    var queryPartArray := JavaSplit(replaced, ' ');
    var queryPartList: seq<string> := [];
    for k := 0 to |queryPartArray|
      invariant queryPartList == KeepQueryParts(queryPartArray[..k])
    {
      assert queryPartArray[..k + 1][..k] == queryPartArray[..k];
      if |Trim(queryPartArray[k])| > 0 {
        queryPartList := queryPartList + [queryPartArray[k]];
      }
    }
    assert queryPartArray[..|queryPartArray|] == queryPartArray;
    return Success(queryPartList);
  }

  lemma {:induction false} ReplaceCommasLength(s: string)
    ensures |ReplaceCommas(s)| == |s|
    ensures forall i :: 0 <= i < |s| ==> ReplaceCommas(s)[i] == if s[i] == ',' then ' ' else s[i]
    decreases |s|
  {
    if s != [] {
      ReplaceCommasLength(s[1..]);
    }
  }

  lemma {:induction false} ReplaceCommasAppend(a: string, b: string)
    ensures ReplaceCommas(a + b) == ReplaceCommas(a) + ReplaceCommas(b)
    decreases |a|
  {
    if a == [] {
      assert a + b == b;
    } else {
      assert (a + b)[1..] == a[1..] + b;
      ReplaceCommasAppend(a[1..], b);
    }
  }

  lemma {:induction false} KeepAppend(a: seq<string>, b: seq<string>)
    ensures KeepQueryParts(a + b) == KeepQueryParts(a) + KeepQueryParts(b)
    decreases |b|
  {
    if |b| == 0 {
      assert a + b == a;
    } else {
      var ab := a + b;
      var b', last := b[..|b| - 1], b[|b| - 1];
      var tail := if IsQueryPart(last) then [last] else [];
      assert ab[..|ab| - 1] == a + b';
      assert ab[|ab| - 1] == last;
      KeepAppend(a, b');
      calc {
        KeepQueryParts(ab);
        KeepQueryParts(a + b') + tail;
        KeepQueryParts(a) + KeepQueryParts(b') + tail;
        KeepQueryParts(a) + (KeepQueryParts(b') + tail);
      }
    }
  }

  /** Every kept piece is one of the pieces and does not trim to nothing. */
  lemma {:induction false} KeepSubset(pieces: seq<string>)
    ensures forall p :: p in KeepQueryParts(pieces) ==> p in pieces && IsQueryPart(p)
    decreases |pieces|
  {
    if pieces != [] {
      KeepSubset(pieces[..|pieces| - 1]);
    }
  }

  /** Trailing empty pieces are never kept, so dropping them changes nothing. */
  lemma KeepDropTrailingEmpty(ps: seq<string>)
    ensures KeepQueryParts(DropTrailingEmpty(ps)) == KeepQueryParts(ps)
    ensures forall p :: p in DropTrailingEmpty(ps) ==> p in ps
  {
    var kept := DropTrailingEmpty(ps);
    DropTrailingEmptyPrefix(ps);
    var tail := ps[|kept|..];
    assert ps == kept + tail;
    KeepAppend(kept, tail);
    EmptiesNotKept(tail);
    assert KeepQueryParts(ps) == KeepQueryParts(kept) + [];
  }

  /** Java's split keeps the same words as the split that keeps every piece. */
  lemma JavaSplitKept(s: string, c: char)
    ensures KeepQueryParts(JavaSplit(s, c)) == KeepQueryParts(SplitAll(s, c))
    ensures forall p :: p in JavaSplit(s, c) ==> p in SplitAll(s, c)
  {
    if c !in s {
      SplitAllNoSeparator(s, c);
      assert JavaSplit(s, c) == SplitAll(s, c);
    } else {
      assert JavaSplit(s, c) == DropTrailingEmpty(SplitAll(s, c));
      KeepDropTrailingEmpty(SplitAll(s, c));
    }
  }

  lemma {:induction false} EmptiesNotKept(pieces: seq<string>)
    requires forall i :: 0 <= i < |pieces| ==> pieces[i] == ""
    ensures KeepQueryParts(pieces) == []
    decreases |pieces|
  {
    if pieces != [] {
      assert Trim("") == "";
      EmptiesNotKept(pieces[..|pieces| - 1]);
    }
  }

  /** No word is empty, none holds a comma or a space, and each has a
      character above U+0020. */
  lemma QueryPartsWellFormed(query: string)
    ensures forall w :: w in QueryParts(query) ==>
      w != [] && IsWord(w)
  {
    var replaced := ReplaceCommas(query);
    ReplaceCommasLength(query);
    assert ',' !in replaced;
    KeepSubset(JavaSplit(replaced, ' '));
    JavaSplitKept(replaced, ' ');
    SplitAllPieces(replaced, ' ');
    forall w | w in QueryParts(query)
      ensures w != [] && IsWord(w)
    {
      TrimEmptyIff(w);
      assert w in SplitAll(replaced, ' ');
    }
  }

  /** A comma or a space splits the words into those before it and those after it
      (so words keep their order and repeated words are all kept). */
  lemma QueryPartsAt(a: string, sep: char, b: string)
    requires sep == ' ' || sep == ','
    ensures QueryParts(a + [sep] + b) == QueryParts(a) + QueryParts(b)
  {
    var ra, rb := ReplaceCommas(a), ReplaceCommas(b);
    ReplaceCommasAppend(a + [sep], b);
    ReplaceCommasAppend(a, [sep]);
    assert ReplaceCommas([sep]) == [' '];
    assert ReplaceCommas(a + [sep] + b) == ra + [' '] + rb;
    JavaSplitKept(ra + [' '] + rb, ' ');
    JavaSplitKept(ra, ' ');
    JavaSplitKept(rb, ' ');
    SplitAllAt(ra, rb, ' ');
    KeepAppend(SplitAll(ra, ' '), SplitAll(rb, ' '));
  }

  /** Some character is above U+0020. */
  predicate HasVisibleCharacter(w: string) {
    exists i :: 0 <= i < |w| && w[i] > ' '
  }

  /** A word the tokenizer keeps whole: no separator, and not all blank. */
  predicate IsWord(w: string) {
    ' ' !in w && ',' !in w && HasVisibleCharacter(w)
  }

  /** A string without separators is one word, unless it trims to nothing. */
  lemma QueryPartsOfWord(w: string)
    requires ' ' !in w && ',' !in w
    ensures HasVisibleCharacter(w) ==> QueryParts(w) == [w]
    ensures !HasVisibleCharacter(w) ==> QueryParts(w) == []
  {
    ReplaceCommasLength(w);
    assert ReplaceCommas(w) == w;
    TrimEmptyIff(w);
    assert KeepQueryParts([w]) == KeepQueryParts([]) + (if IsQueryPart(w) then [w] else []);
  }

  /** Every character is a comma or at most U+0020. */
  predicate NoWordCharacters(s: string) {
    forall i :: 0 <= i < |s| ==> s[i] == ',' || s[i] <= ' '
  }

  lemma NoWordCharactersAt(a: string, sep: char, b: string)
    requires sep == ' ' || sep == ','
    ensures NoWordCharacters(a + [sep] + b) <==> NoWordCharacters(a) && NoWordCharacters(b)
  {
    var s := a + [sep] + b;
    assert forall i :: 0 <= i < |a| ==> s[i] == a[i];
    assert forall i :: 0 <= i < |b| ==> s[|a| + 1 + i] == b[i];
  }

  /** A query has no words exactly when it consists of commas and characters
      at or below U+0020 (so "" and "  , ," have none). */
  lemma {:induction false} QueryPartsEmptyIff(query: string)
    ensures QueryParts(query) == [] <==> NoWordCharacters(query)
    decreases |query|
  {
    var k := FirstSeparator(query);
    if k == |query| {
      QueryPartsOfWord(query);
    } else {
      var a, b := query[..k], query[k + 1..];
      assert query == a + [query[k]] + b;
      QueryPartsAt(a, query[k], b);
      NoWordCharactersAt(a, query[k], b);
      QueryPartsEmptyIff(a);
      QueryPartsEmptyIff(b);
    }
  }

  /** The position of the first comma or space, or the length when there is none. */
  function FirstSeparator(s: string): (k: nat)
    ensures k <= |s|
    ensures k < |s| ==> s[k] == ' ' || s[k] == ','
    ensures forall i :: 0 <= i < k ==> s[i] != ' ' && s[i] != ','
    decreases |s|
  {
    if s == [] then 0
    else if s[0] == ' ' || s[0] == ',' then 0
    else 1 + FirstSeparator(s[1..])
  }

  /** A leading separator is ignored. */
  lemma QueryPartsLeadingSeparator(sep: char, rest: string)
    requires sep == ' ' || sep == ','
    ensures QueryParts([sep] + rest) == QueryParts(rest)
  {
    assert !HasVisibleCharacter("");
    QueryPartsOfWord("");
    QueryPartsAt("", sep, rest);
    assert "" + [sep] + rest == [sep] + rest;
  }

  /** A word, a separator followed by a space, and the rest. */
  lemma QueryPartsWordThenSeparators(w: string, sep: char, rest: string)
    requires sep == ' ' || sep == ','
    requires IsWord(w)
    ensures QueryParts(w + [sep, ' '] + rest) == [w] + QueryParts(rest)
  {
    var tail := [' '] + rest;
    assert w + [sep, ' '] + rest == w + [sep] + tail;
    assert QueryParts(w + [sep] + tail) == QueryParts(w) + QueryParts(tail) by {
      QueryPartsAt(w, sep, tail);
    }
    assert QueryParts(tail) == QueryParts(rest) by {
      QueryPartsLeadingSeparator(' ', rest);
    }
    assert QueryParts(w) == [w] by {
      QueryPartsOfWord(w);
    }
  }

  /** The shape of the source's mixed-separator test ("john, smith  doe"):
      a comma and a space, then two spaces, give the three words in order. */
  lemma QueryPartsMixedSeparators(w1: string, w2: string, w3: string)
    requires IsWord(w1) && IsWord(w2) && IsWord(w3)
    ensures QueryParts(w1 + [',', ' '] + w2 + [' ', ' '] + w3) == [w1, w2, w3]
  {
    var tail := w2 + [' ', ' '] + w3;
    assert w1 + [',', ' '] + w2 + [' ', ' '] + w3 == w1 + [',', ' '] + tail;
    assert QueryParts(w1 + [',', ' '] + tail) == [w1] + QueryParts(tail) by {
      QueryPartsWordThenSeparators(w1, ',', tail);
    }
    assert QueryParts(tail) == [w2] + QueryParts(w3) by {
      QueryPartsWordThenSeparators(w2, ' ', w3);
    }
    assert QueryParts(w3) == [w3] by {
      QueryPartsOfWord(w3);
    }
  }

  /** Words joined by single spaces tokenize back to the same words. */
  lemma {:induction false} JoinedWordsRetokenize(ws: seq<string>)
    requires forall w | w in ws :: IsWord(w)
    ensures QueryParts(Join(ws, " ")) == ws
    decreases |ws|
  {
    if ws == [] {
      QueryPartsOfEmpty();
    } else if |ws| == 1 {
      assert ws[0] in ws;
      assert Join(ws, " ") == ws[0];
      QueryPartsOfWord(ws[0]);
    } else {
      var init, w := ws[..|ws| - 1], ws[|ws| - 1];
      assert ws == init + [w];
      assert w in ws;
      JoinedWordsRetokenize(init);
      assert Join(ws, " ") == Join(init, " ") + [' '] + w by {
        JoinAppend(init, w, " ");
      }
      assert QueryParts(Join(init, " ") + [' '] + w) == QueryParts(Join(init, " ")) + QueryParts(w) by {
        QueryPartsAt(Join(init, " "), ' ', w);
      }
      QueryPartsOfWord(w);
    }
  }

  /** Tokenizing is a normal form: the words of a query, joined by single
      spaces, have the same words. */
  lemma QueryPartsNormalForm(query: string)
    ensures QueryParts(Join(QueryParts(query), " ")) == QueryParts(query)
  {
    QueryPartsWellFormed(query);
    JoinedWordsRetokenize(QueryParts(query));
  }

  /** The empty query has no words. */
  lemma QueryPartsOfEmpty()
    ensures QueryParts("") == []
  {
    assert !HasVisibleCharacter("");
    QueryPartsOfWord("");
  }
}
