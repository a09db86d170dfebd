/**
 * The font variation and feature lists that `entry_backend_harfbuzz_init`
 * (src/entry_backend/harfbuzz.c) fills from two comma-separated settings
 * strings. `strtok_r` cuts the string into tokens; each token is handed to
 * HarfBuzz's parser (`hb_variation_from_string` / `hb_feature_from_string`,
 * which are not part of this model and appear here as the function
 * `parse`); a token that parses is stored in the next free slot of a fixed
 * array, one that does not is skipped, and reading stops once the array is
 * full.
 */
module FontSettings {
  import opened Base

  /** `hb_variation_t`: an axis tag and its value. */
  datatype Variation = Variation(tag: nat, value: real)

  /** `hb_feature_t`: a feature tag, its value and the cluster range it applies to. */
  datatype Feature = Feature(tag: nat, value: nat, start: nat, end: nat)

  // ---------------------------------------------------------------------
  // strtok_r(s, ",", &saveptr)
  // ---------------------------------------------------------------------

  /** The length of the longest prefix of `s` holding no comma. */
  function Span(s: string): (n: nat)
    ensures n <= |s| && ',' !in s[..n] && (n == |s| || s[n] == ',')
  {
    if s == [] || s[0] == ',' then 0 else 1 + Span(s[1..])
  }

  /**
   * One call of `strtok_r`: skip the leading commas; at the end of the string
   * there is no token, otherwise the token runs up to the next comma and
   * reading resumes just after that comma.
   */
  function NextToken(s: string): (r: (Option<string>, string))
    ensures r.0.None? ==> r.1 == [] && forall i | 0 <= i < |s| :: s[i] == ','
    ensures r.0.Some? ==> r.0.value != [] && ',' !in r.0.value && |r.1| < |s|
    decreases |s|
  {
    if s == [] then (None, [])
    else if s[0] == ',' then NextToken(s[1..])
    else
      var n := Span(s);
      (Some(s[..n]), if n < |s| then s[n + 1..] else [])
  }

  /** All the tokens `strtok_r` returns, in order. */
  function Tokens(s: string): (ts: seq<string>)
    ensures forall i | 0 <= i < |ts| :: ts[i] != [] && ',' !in ts[i]
    decreases |s|
  {
    match NextToken(s)
    case (None, _) => []
    case (Some(t), rest) => [t] + Tokens(rest)
  }

  /** What remains to be returned once `strtok_r` has produced `token` and kept `rest`. */
  function Pending(token: Option<string>, rest: string): seq<string>
  {
    match token
    case None => []
    case Some(t) => [t] + Tokens(rest)
  }

  /** The tokens joined back with one comma between each two. */
  function Join(ts: seq<string>): string
  {
    if ts == [] then [] else if |ts| == 1 then ts[0] else ts[0] + "," + Join(ts[1..])
  }

  lemma {:induction false} NextTokenOfJoin(ts: seq<string>)
    requires ts != [] && forall i | 0 <= i < |ts| :: ts[i] != [] && ',' !in ts[i]
    ensures NextToken(Join(ts)) == (Some(ts[0]), Join(ts[1..]))
  {
    var t := ts[0];
    assert t[0] != ',' by { assert t[0] in t; }
    if |ts| == 1 {
      SpanOfToken(t, []);
      assert t + [] == t;
    } else {
      var s := t + "," + Join(ts[1..]);
      assert s == t + ("," + Join(ts[1..]));
      SpanOfToken(t, "," + Join(ts[1..]));
      assert s[|t| + 1..] == Join(ts[1..]);
    }
  }

  lemma {:induction false} SpanOfToken(t: string, tail: string)
    requires t != [] && ',' !in t && (tail == [] || tail[0] == ',')
    ensures Span(t + tail) == |t| && (t + tail)[..|t|] == t
  {
    if |t| > 1 {
      assert (t + tail)[1..] == t[1..] + tail;
      SpanOfToken(t[1..], tail);
    } else {
      assert (t + tail)[1..] == tail;
    }
  }

  /** Splitting a list of non-empty, comma-free tokens joined by commas gives the list back. */
  lemma {:induction false} TokensOfJoin(ts: seq<string>)
    requires forall i | 0 <= i < |ts| :: ts[i] != [] && ',' !in ts[i]
    ensures Tokens(Join(ts)) == ts
  {
    if ts != [] {
      NextTokenOfJoin(ts);
      TokensOfJoin(ts[1..]);
    }
  }

  /** Empty tokens never appear: a run of commas, or commas at either end, separate nothing. */
  lemma ExtraCommas()
    ensures Tokens(",,wght=700,,") == ["wght=700"]
  {
    var s := ",,wght=700,,";
    assert s[1..] == ",wght=700,,";
    assert s[2..] == "wght=700,,";
    assert Span("wght=700,,") == 8 by { SpanOfToken("wght=700", ",,"); }
    assert "wght=700,,"[..8] == "wght=700" && "wght=700,,"[9..] == ",";
    assert NextToken(",") == (None, []) by { assert ","[1..] == []; }
  }

  // ---------------------------------------------------------------------
  // The settings that parse
  // ---------------------------------------------------------------------

  /** The parsed values of the tokens that parse, in the tokens' order. */
  function Kept<T>(tokens: seq<string>, parse: string -> Option<T>): (vs: seq<T>)
    ensures |vs| <= |tokens|
  {
    if tokens == [] then []
    else
      var rest := Kept(tokens[1..], parse);
      match parse(tokens[0])
      case Some(v) => [v] + rest
      case None => rest
  }

  lemma {:induction false} KeptAppend<T>(a: seq<string>, b: seq<string>, parse: string -> Option<T>)
    ensures Kept(a + b, parse) == Kept(a, parse) + Kept(b, parse)
  {
    if a != [] {
      assert (a + b)[1..] == a[1..] + b;
      KeptAppend(a[1..], b, parse);
    } else {
      assert a + b == b;
    }
  }

  /** Every kept value comes from a token, and a token that parses is never lost. */
  lemma {:induction false} KeptMembers<T>(tokens: seq<string>, parse: string -> Option<T>)
    ensures forall v | v in Kept(tokens, parse) :: exists t | t in tokens :: parse(t) == Some(v)
    ensures forall t | t in tokens && parse(t).Some? :: parse(t).value in Kept(tokens, parse)
  {
    if tokens != [] {
      KeptMembers(tokens[1..], parse);
      forall t | t in tokens[1..] ensures t in tokens { }
    }
  }

  lemma KeptStep<T>(all: seq<string>, i: nat, parse: string -> Option<T>)
    requires i < |all|
    ensures Kept(all[..i + 1], parse)
         == Kept(all[..i], parse) + match parse(all[i]) case Some(v) => [v] case None => []
  {
    assert all[..i + 1] == all[..i] + [all[i]];
    KeptAppend(all[..i], [all[i]], parse);
    assert [all[i]][1..] == [];
  }

  function Take<T>(xs: seq<T>, n: nat): (ys: seq<T>)
    ensures |ys| <= n && ys <= xs
    ensures |xs| <= n ==> ys == xs
  {
    if |xs| <= n then xs else xs[..n]
  }

  /**
   * The token loop: while `strtok_r` still returns a token and the array
   * has a free slot, store the token's parsed value in the next slot if it
   * parses. `count0` is the number of slots in use on entry.
   */
  method ParseInto<T>(spec: string, parse: string -> Option<T>, slots: array<T>, count0: nat)
    returns (count: nat)
    requires count0 <= slots.Length
    modifies slots
    ensures count <= slots.Length
    ensures slots[..count] == old(slots[..count0]) + Take(Kept(Tokens(spec), parse), slots.Length - count0)
  {
    ghost var all := Tokens(spec);
    ghost var prefix := slots[..count0];
    ghost var i := 0;
    count := count0;
    var next := NextToken(spec);
    var token, rest := next.0, next.1;
    while token.Some? && count < slots.Length
      invariant count0 <= count <= slots.Length && i <= |all|
      invariant Pending(token, rest) == all[i..]
      invariant slots[..count] == prefix + Kept(all[..i], parse)
      decreases |rest|, token.Some?
    {
      assert all[i] == token.value && all[i + 1..] == Tokens(rest) by {
        assert all[i..] == [token.value] + Tokens(rest);
        assert all[i..][1..] == all[i + 1..];
      }
      KeptStep(all, i, parse);
      var parsed := parse(token.value);
      if parsed.Some? {
        ghost var before := slots[..count];
        slots[count] := parsed.value;
        assert slots[..count + 1] == before + [parsed.value];
        count := count + 1;
      }
      i := i + 1;
      next := NextToken(rest);
      token, rest := next.0, next.1;
    }
    ghost var stopped := token.Some?;
    assert !stopped ==> i == |all| by {
      if !stopped { assert all[i..] == []; }
    }
    KeptPrefix(all, i, parse, slots.Length - count0);
  }

  /**
   * Once the loop stops, either every token has been looked at or the slots
   * are full; either way the values stored are the kept values that fit.
   */
  lemma KeptPrefix<T>(all: seq<string>, i: nat, parse: string -> Option<T>, room: nat)
    requires i <= |all|
    requires |Kept(all[..i], parse)| <= room
    requires i == |all| || |Kept(all[..i], parse)| == room
    ensures Kept(all[..i], parse) == Take(Kept(all, parse), room)
  {
    assert all == all[..i] + all[i..];
    KeptAppend(all[..i], all[i..], parse);
    if i == |all| {
      assert all[..i] == all;
    }
  }

  /** The variation and feature arrays of `struct entry_backend_harfbuzz`, with the counts of slots in use. */
  class FontSettings {
    const variations: array<Variation>
    var numVariations: nat
    const features: array<Feature>
    var numFeatures: nat

    ghost predicate Valid()
      reads this
    {
      numVariations <= variations.Length && numFeatures <= features.Length
    }

    function Variations(): seq<Variation>
      reads this, variations
      requires Valid()
    {
      variations[..numVariations]
    }

    function Features(): seq<Feature>
      reads this, features
      requires Valid()
    {
      features[..numFeatures]
    }

    /** The backend starts with both lists empty. */
    constructor (variationCapacity: nat, featureCapacity: nat)
      ensures Valid() && fresh(variations) && fresh(features)
      ensures variations.Length == variationCapacity && features.Length == featureCapacity
      ensures Variations() == [] && Features() == []
    {
      variations := new Variation[variationCapacity];
      features := new Feature[featureCapacity];
      numVariations, numFeatures := 0, 0;
    }

    /** The two token loops of `entry_backend_harfbuzz_init`, variations first. */
    method ParseSettings(variationSpec: string, featureSpec: string,
                         parseVariation: string -> Option<Variation>, parseFeature: string -> Option<Feature>)
      requires Valid()
      modifies this, variations, features
      ensures Valid()
      ensures Variations() == old(Variations())
        + Take(Kept(Tokens(variationSpec), parseVariation), variations.Length - old(numVariations))
      ensures Features() == old(Features())
        + Take(Kept(Tokens(featureSpec), parseFeature), features.Length - old(numFeatures))
    {
      numVariations := ParseInto(variationSpec, parseVariation, variations, numVariations);
      numFeatures := ParseInto(featureSpec, parseFeature, features, numFeatures);
    }
  }
}
