/**
 * replaceSearchString: filling the identifier into an administrator-defined
 * regular expression or search pattern. Three markers are replaced, one after
 * the other: @SEARCH@ by the identifier, then @SEARCH-1@ by all of it but its
 * last character and @CHECKDIGIT@ by its last character (both by the empty
 * string when the identifier has fewer than two characters).
 */
module SearchString {
  import opened Text

  const SearchMarker: string := "@SEARCH@"
  const SearchMinusOneMarker: string := "@SEARCH-1@"
  const CheckDigitMarker: string := "@CHECKDIGIT@"

  /** replaceSearchString(regex, identifierSearched) */
  function ReplaceSearchString(regex: string, identifier: string): string {
    var withSearch := ReplaceAll(regex, SearchMarker, identifier);
    if |identifier| > 1 then
      var withBody := ReplaceAll(withSearch, SearchMinusOneMarker, identifier[..|identifier| - 1]);
      ReplaceAll(withBody, CheckDigitMarker, identifier[|identifier| - 1..])
    else
      ReplaceAll(ReplaceAll(withSearch, SearchMinusOneMarker, ""), CheckDigitMarker, "")
  }

  /** A template seen as text and markers. */
  datatype Marker = Search | SearchMinusOne | CheckDigit
  datatype TemplatePart = Literal(text: string) | Token(marker: Marker)

  function MarkerText(m: Marker): string {
    match m
    case Search => SearchMarker
    case SearchMinusOne => SearchMinusOneMarker
    case CheckDigit => CheckDigitMarker
  }

  /** The template as the administrator writes it. */
  function Render(ps: seq<TemplatePart>): string
    decreases |ps|
  {
    if ps == [] then ""
    else (match ps[0] case Literal(t) => t case Token(m) => MarkerText(m)) + Render(ps[1..])
  }

  /** What each marker stands for, for a given identifier. */
  function MarkerValue(m: Marker, identifier: string): string {
    match m
    case Search => identifier
    case SearchMinusOne => if |identifier| > 1 then identifier[..|identifier| - 1] else ""
    case CheckDigit => if |identifier| > 1 then [identifier[|identifier| - 1]] else ""
  }

  /** The template with every marker replaced by its value at once. */
  function Expand(ps: seq<TemplatePart>, identifier: string): string
    decreases |ps|
  {
    if ps == [] then ""
    else (match ps[0] case Literal(t) => t case Token(m) => MarkerValue(m, identifier)) + Expand(ps[1..], identifier)
  }

  /** Text that cannot take part in forming a marker: no '@', and not
      starting with the 'S' that could follow a marker's closing '@'. */
  predicate IsPlainText(t: string) {
    '@' !in t && (t == [] || t[0] != 'S')
  }

  predicate PlainLiterals(ps: seq<TemplatePart>) {
    forall i :: 0 <= i < |ps| ==> ps[i].Literal? ==> IsPlainText(ps[i].text)
  }

  /** The template with one kind of marker turned into text. */
  function Substitute(ps: seq<TemplatePart>, m: Marker, value: string): (r: seq<TemplatePart>)
    ensures |r| == |ps|
    ensures forall i :: 0 <= i < |ps| ==> r[i] == if ps[i] == Token(m) then Literal(value) else ps[i]
    decreases |ps|
  {
    if ps == [] then []
    else [if ps[0] == Token(m) then Literal(value) else ps[0]] + Substitute(ps[1..], m, value)
  }

  lemma {:induction false} SubstitutePlain(ps: seq<TemplatePart>, m: Marker, value: string)
    requires PlainLiterals(ps) && IsPlainText(value)
    ensures PlainLiterals(Substitute(ps, m, value))
    decreases |ps|
  {
    if ps != [] {
      SubstitutePlain(ps[1..], m, value);
      var r := Substitute(ps, m, value);
      forall i | 0 <= i < |r| && r[i].Literal? ensures IsPlainText(r[i].text) {
        if i > 0 {
          assert r[i] == Substitute(ps[1..], m, value)[i - 1];
        }
      }
    }
  }

  /** A rendered template with plain literals never starts with 'S'. */
  lemma {:induction false} RenderStart(ps: seq<TemplatePart>)
    requires PlainLiterals(ps)
    ensures Render(ps) == [] || Render(ps)[0] != 'S'
    decreases |ps|
  {
    if ps != [] {
      assert PlainLiterals(ps[1..]) by {
        forall i | 0 <= i < |ps[1..]| && ps[1..][i].Literal? ensures IsPlainText(ps[1..][i].text) {
          assert ps[1..][i] == ps[i + 1];
        }
      }
      RenderStart(ps[1..]);
    }
  }

  /** Where the pattern and another marker first differ. */
  function MarkerDifference(m: Marker, other: Marker): (j: nat)
    requires m != other
    ensures j < |MarkerText(m)| && j < |MarkerText(other)|
    ensures MarkerText(m)[j] != MarkerText(other)[j]
  {
    if m == CheckDigit || other == CheckDigit then 1 else 7
  }

  /** Every marker is '@', a name without '@', and '@'; all but
      @CHECKDIGIT@ continue with 'S'. */
  lemma MarkerShape(k: Marker)
    ensures var mk := MarkerText(k);
      && |mk| >= 2 && mk[0] == '@' && mk[|mk| - 1] == '@'
      && '@' !in mk[1..|mk| - 1]
      && (k != CheckDigit ==> mk[1] == 'S')
  {
    var mk := MarkerText(k);
    match k
    case Search =>
      assert mk[1..|mk| - 1] == "SEARCH";
    case SearchMinusOne =>
      assert forall i :: 1 <= i < |mk| - 1 ==> mk[i] != '@';
    case CheckDigit =>
      assert mk[1..|mk| - 1] == "CHECKDIGIT";
  }

  /** Every marker other than m is @CHECKDIGIT@ when m is. */
  predicate PassableMarkers(ps: seq<TemplatePart>, m: Marker) {
    m == CheckDigit ==> forall i :: 0 <= i < |ps| ==> ps[i].Token? ==> ps[i].marker == CheckDigit
  }

  /** One pass of replaceAll over a template with plain literals replaces
      exactly the markers of its kind. When the pass is for @CHECKDIGIT@, no
      other marker may be left, since its closing '@' followed by "CHECKDIGIT@"
      would be read as one. */
  lemma {:induction false} ReplacePass(ps: seq<TemplatePart>, m: Marker, value: string)
    requires PlainLiterals(ps) && PassableMarkers(ps, m)
    ensures ReplaceAll(Render(ps), MarkerText(m), value) == Render(Substitute(ps, m, value))
    decreases |ps|
  {
    var pat := MarkerText(m);
    if ps == [] {
    } else {
      var rest := Render(ps[1..]);
      assert PlainLiterals(ps[1..]) by {
        forall i | 0 <= i < |ps[1..]| && ps[1..][i].Literal? ensures IsPlainText(ps[1..][i].text) {
          assert ps[1..][i] == ps[i + 1];
        }
      }
      assert PassableMarkers(ps[1..], m) by {
        if m == CheckDigit {
          forall i | 0 <= i < |ps[1..]| && ps[1..][i].Token? ensures ps[1..][i].marker == CheckDigit {
            assert ps[1..][i] == ps[i + 1];
          }
        }
      }
      ReplacePass(ps[1..], m, value);
      match ps[0]
      case Literal(t) =>
        assert IsPlainText(t);
        ReplaceAllFreePrefix(t, rest, pat, value);
      case Token(k) =>
        if k == m {
          ReplaceAllAtPattern(rest, pat, value);
        } else {
          RenderStart(ps[1..]);
          var j := MarkerDifference(k, m);
          var mk := MarkerText(k);
          MarkerShape(k);
          MarkerShape(m);
          ReplaceAllPastToken(mk, rest, pat, value, j);
        }
    }
  }

  /** Once no markers are left, rendering is expanding. */
  lemma {:induction false} RenderSubstituted(ps: seq<TemplatePart>, identifier: string)
    ensures var v1, v2, v3 := MarkerValue(Search, identifier), MarkerValue(SearchMinusOne, identifier),
                              MarkerValue(CheckDigit, identifier);
      Render(Substitute(Substitute(Substitute(ps, Search, v1), SearchMinusOne, v2), CheckDigit, v3)) ==
      Expand(ps, identifier)
    decreases |ps|
  {
    if ps != [] {
      var v1, v2, v3 := MarkerValue(Search, identifier), MarkerValue(SearchMinusOne, identifier),
                        MarkerValue(CheckDigit, identifier);
      var q1 := Substitute(ps, Search, v1);
      var q2 := Substitute(q1, SearchMinusOne, v2);
      var q3 := Substitute(q2, CheckDigit, v3);
      assert q1[1..] == Substitute(ps[1..], Search, v1);
      assert q2[1..] == Substitute(q1[1..], SearchMinusOne, v2);
      assert q3[1..] == Substitute(q2[1..], CheckDigit, v3);
      RenderSubstituted(ps[1..], identifier);
    }
  }

  /** The three passes of replaceSearchString expand every marker of a
      template at once, provided neither the template's text nor the
      identifier contains '@' or starts with 'S' (otherwise the closing '@'
      of one marker followed by the text could be read as another marker). */
  lemma ReplaceSearchStringExpands(ps: seq<TemplatePart>, identifier: string)
    requires PlainLiterals(ps) && IsPlainText(identifier)
    ensures ReplaceSearchString(Render(ps), identifier) == Expand(ps, identifier)
  {
    var v1, v2, v3 := MarkerValue(Search, identifier), MarkerValue(SearchMinusOne, identifier),
                      MarkerValue(CheckDigit, identifier);
    var ps1 := Substitute(ps, Search, v1);
    var ps2 := Substitute(ps1, SearchMinusOne, v2);
    var ps3 := Substitute(ps2, CheckDigit, v3);
    assert IsPlainText(v2) by {
      if |identifier| > 1 {
        assert identifier[..|identifier| - 1][0] == identifier[0];
      }
    }
    assert PlainLiterals(ps1) by { SubstitutePlain(ps, Search, v1); }
    assert PlainLiterals(ps2) by { SubstitutePlain(ps1, SearchMinusOne, v2); }
    assert PassableMarkers(ps2, CheckDigit) by {
      forall i | 0 <= i < |ps2| && ps2[i].Token? ensures ps2[i].marker == CheckDigit {
        assert ps1[i] == if ps[i] == Token(Search) then Literal(v1) else ps[i];
      }
    }
    var s1 := ReplaceAll(Render(ps), SearchMarker, identifier);
    assert s1 == Render(ps1) by { ReplacePass(ps, Search, v1); }
    var s2 := ReplaceAll(s1, SearchMinusOneMarker, v2);
    assert s2 == Render(ps2) by { ReplacePass(ps1, SearchMinusOne, v2); }
    var s3 := ReplaceAll(s2, CheckDigitMarker, v3);
    assert s3 == Render(ps3) by { ReplacePass(ps2, CheckDigit, v3); }
    assert Render(ps3) == Expand(ps, identifier) by { RenderSubstituted(ps, identifier); }
    assert ReplaceSearchString(Render(ps), identifier) == s3 by {
      if |identifier| > 1 {
        assert identifier[|identifier| - 1..] == v3;
      }
    }
  }

  /** A template without '@' is used as it is. */
  lemma ReplaceSearchStringWithoutMarkers(regex: string, identifier: string)
    requires '@' !in regex
    ensures ReplaceSearchString(regex, identifier) == regex
  {
    assert regex + "" == regex;
    ReplaceAllFreePrefix(regex, "", SearchMarker, identifier);
    var body := if |identifier| > 1 then identifier[..|identifier| - 1] else "";
    var last := if |identifier| > 1 then identifier[|identifier| - 1..] else "";
    ReplaceAllFreePrefix(regex, "", SearchMinusOneMarker, body);
    ReplaceAllFreePrefix(regex, "", CheckDigitMarker, last);
  }

  /** The check-digit example: "@SEARCH@-@CHECKDIGIT@" with "1234" gives "1234-4". */
  lemma CheckDigitExample()
    ensures ReplaceSearchString("@SEARCH@-@CHECKDIGIT@", "1234") == "1234-4"
  {
    var ps := [Token(Search), Literal("-"), Token(CheckDigit)];
    assert Render(ps) == "@SEARCH@-@CHECKDIGIT@";
    assert IsPlainText("1234");
    ReplaceSearchStringExpands(ps, "1234");
    assert Expand(ps, "1234") == "1234-4";
  }

  /** With a one-character identifier both short markers vanish. */
  lemma ShortIdentifierExample()
    ensures ReplaceSearchString("@SEARCH-1@@CHECKDIGIT@", "7") == ""
  {
    var qs := [Token(SearchMinusOne), Token(CheckDigit)];
    assert Render(qs) == "@SEARCH-1@@CHECKDIGIT@";
    ReplaceSearchStringExpands(qs, "7");
  }

  /** A padded regex keeps everything around the marker:
      "^0*@SEARCH@$" with "42" gives "^0*42$". */
  lemma PaddedTemplateExample()
    ensures ReplaceSearchString("^0*@SEARCH@$", "42") == "^0*42$"
  {
    var ps := [Literal("^0*"), Token(Search), Literal("$")];
    assert Render(ps) == "^0*@SEARCH@$";
    ReplaceSearchStringExpands(ps, "42");
    assert Expand(ps, "42") == "^0*42$";
  }
}
