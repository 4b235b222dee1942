/** The hash router of the dashboard and the map's click handler that
    writes the hash it reads.
 */
module Router {
  import opened JsValues
  import opened UriComponent

  /** The only route with an argument; every other hash shows the map. */
  const CountryPrefix := "#countryChart?country="

  datatype View = ShowCountry(country: string) | ShowMap

  predicate StartsWith(s: string, prefix: string)
  {
    |prefix| <= |s| && s[..|prefix|] == prefix
  }

  // ---------------------------------------------------------------------
  // String.prototype.split with a one-character separator
  // ---------------------------------------------------------------------

  function Count(s: string, c: char): nat
  {
    if s == [] then 0 else (if s[0] == c then 1 else 0) + Count(s[1..], c)
  }

  /** `s.split(sep)`: the pieces between separators, one more than there
      are separators, none containing the separator. */
  function Split(s: string, sep: char): (r: seq<string>)
    ensures |r| == Count(s, sep) + 1
    ensures forall i :: 0 <= i < |r| ==> sep !in r[i]
  {
    if s == [] then [""]
    else
      var rest := Split(s[1..], sep);
      if s[0] == sep then [""] + rest
      else
        assert forall i :: 0 <= i < |rest| - 1 ==> rest[1..][i] == rest[i + 1];
        [[s[0]] + rest[0]] + rest[1..]
  }

  /** `parts.join(sep)`. */
  function Join(parts: seq<string>, sep: char): string
    requires parts != []
  {
    if |parts| == 1 then parts[0] else parts[0] + [sep] + Join(parts[1..], sep)
  }

  /** Joining the pieces with the separator restores the string. */
  lemma {:induction false} JoinSplit(s: string, sep: char)
    ensures Join(Split(s, sep), sep) == s
  {
    if s != [] {
      JoinSplit(s[1..], sep);
      var rest := Split(s[1..], sep);
      if s[0] == sep {
        assert Split(s, sep) == [""] + rest;
        assert s == [sep] + s[1..];
      } else {
        var r := Split(s, sep);
        assert r == [[s[0]] + rest[0]] + rest[1..];
        if |rest| == 1 {
          assert s == [s[0]] + rest[0];
        } else {
          assert r[1..] == rest[1..];
          assert Join(rest, sep) == rest[0] + [sep] + Join(rest[1..], sep);
          assert s == [s[0]] + s[1..];
        }
      }
    }
  }

  /** Text free of the separator, then the separator: the text is the
      first piece and the remainder is split on its own. */
  lemma {:induction false} SplitAfter(p: string, sep: char, rest: string)
    requires sep !in p
    ensures Split(p + [sep] + rest, sep) == [p] + Split(rest, sep)
  {
    if p == [] {
      assert p + [sep] + rest == [sep] + rest;
      assert ([sep] + rest)[1..] == rest;
    } else {
      SplitAfter(p[1..], sep, rest);
      assert (p + [sep] + rest)[1..] == p[1..] + [sep] + rest;
      assert [p[0]] + p[1..] == p;
    }
  }

  /** A string free of the separator is a single piece. */
  lemma SplitNone(s: string, sep: char)
    requires sep !in s
    ensures Split(s, sep) == [s]
  {
    if s != [] {
      SplitNone(s[1..], sep);
      assert [s[0]] + s[1..] == s;
    }
  }

  /** The prefix holds exactly one "=", at its end, so piece 1 of the split
      always exists for a hash that starts with it. */
  lemma SplitCountryHash(hash: string)
    requires StartsWith(hash, CountryPrefix)
    ensures Split(hash, '=') == [CountryPrefix[..|CountryPrefix| - 1]] + Split(hash[|CountryPrefix|..], '=')
  {
    assert hash == CountryPrefix[..|CountryPrefix| - 1] + ['='] + hash[|CountryPrefix|..];
    SplitAfter(CountryPrefix[..|CountryPrefix| - 1], '=', hash[|CountryPrefix|..]);
  }

  // ---------------------------------------------------------------------
  // Dispatch
  // ---------------------------------------------------------------------

  /** Piece 0 of a split is the text up to the first separator. */
  lemma FirstPiece(s: string, sep: char)
    ensures var a := Split(s, sep)[0];
            StartsWith(s, a) && (|a| == |s| || s[|a|] == sep)
  {
    JoinSplit(s, sep);
    var parts := Split(s, sep);
    var a := parts[0];
    if |parts| > 1 {
      assert s == a + [sep] + Join(parts[1..], sep);
      assert s[..|a|] == a && s[|a|] == sep;
    } else {
      assert s == a;
    }
  }

  /** The argument text: piece 1 of `hash.split("=")`, which is the text
      after the prefix up to the next "=" or the end. */
  function CountryArgument(hash: string): (a: string)
    requires StartsWith(hash, CountryPrefix)
    ensures '=' !in a
    ensures StartsWith(hash[|CountryPrefix|..], a)
    ensures |a| == |hash| - |CountryPrefix| || hash[|CountryPrefix| + |a|] == '='
  {
    SplitCountryHash(hash);
    FirstPiece(hash[|CountryPrefix|..], '=');
    Split(hash, '=')[1]
  }

  /** The view chosen by `init` on load (lines 5-10): the country view
      with the decoded argument when the hash starts with the country
      prefix, the map otherwise; a malformed escape throws URIError. */
  function Dispatch(hash: string): (r: Completion<View>)
    ensures !StartsWith(hash, CountryPrefix) <==> r == Normal(ShowMap)
    ensures r.Thrown? ==> r.error == URIError && StartsWith(hash, CountryPrefix)
  {
    if StartsWith(hash, CountryPrefix) then
      match Decode(CountryArgument(hash))
      case Normal(name) => Normal(ShowCountry(name))
      case Thrown(e) => Thrown(e)
    else Normal(ShowMap)
  }

  /** What the `hashchange` listener does: whether it clears the container
      first, and the view it draws. */
  datatype Reaction = Reaction(clearsContainer: bool, view: Completion<View>)

  /** The `hashchange` listener (lines 14-21). */
  function OnHashChange(hash: string): (r: Reaction)
    ensures r.view == Dispatch(hash)
    ensures r.clearsContainer <==> r.view == Normal(ShowMap)
  {
    if StartsWith(hash, CountryPrefix) then
      var parts := Split(hash, '=');
      SplitCountryHash(hash);
      match Decode(parts[1])
      case Normal(name) => Reaction(false, Normal(ShowCountry(name)))
      case Thrown(e) => Reaction(false, Thrown(e))
    else Reaction(true, Normal(ShowMap))
  }

  /** Anything after a second "=" is discarded. */
  lemma ExtraEqualsDiscarded(a: string, b: string)
    requires '=' !in a
    ensures Dispatch(CountryPrefix + a + "=" + b) == Dispatch(CountryPrefix + a)
  {
    var h1 := CountryPrefix + a + "=" + b;
    var h2 := CountryPrefix + a;
    assert h1[..|CountryPrefix|] == CountryPrefix && h2[..|CountryPrefix|] == CountryPrefix;
    assert h1[|CountryPrefix|..] == a + ['='] + b && h2[|CountryPrefix|..] == a;
    SplitCountryHash(h1);
    SplitCountryHash(h2);
    SplitAfter(a, '=', b);
    SplitNone(a, '=');
  }

  /** The bare prefix selects the country view with the empty name. */
  lemma EmptyArgument()
    ensures Dispatch(CountryPrefix) == Normal(ShowCountry(""))
  {
    SplitCountryHash(CountryPrefix);
    assert CountryPrefix[|CountryPrefix|..] == "";
  }

  // ---------------------------------------------------------------------
  // The writer: the map's click handler
  // ---------------------------------------------------------------------

  /** `d.properties.name || "Unknown"`. */
  function Label(name: Option<string>): (r: string)
    ensures r != []
    ensures name.Some? && name.value != [] ==> r == name.value
    ensures name.None? || name.value == [] ==> r == "Unknown"
  {
    if name.Some? && name.value != [] then name.value else "Unknown"
  }

  /** The hash a click on a country writes. */
  function ClickHash(name: Option<string>): (h: string)
    ensures StartsWith(h, CountryPrefix)
  {
    CountryPrefix + Encode(Label(name))
  }

  /** Clicking a country and reading the hash back selects that country,
      with exactly the clicked name. */
  lemma {:induction false} ClickRoundTrip(name: Option<string>)
    ensures Dispatch(ClickHash(name)) == Normal(ShowCountry(Label(name)))
  {
    var shown := Label(name);
    var e := Encode(shown);
    var h := CountryPrefix + e;
    assert h == ClickHash(name);
    assert StartsWith(h, CountryPrefix) && h[|CountryPrefix|..] == e;
    EncodeHasNoSeparators(shown);
    SplitCountryHash(h);
    SplitNone(e, '=');
    assert CountryArgument(h) == e;
    DecodeEncode(shown);
    assert Decode(CountryArgument(h)) == Normal(shown);
  }
}
