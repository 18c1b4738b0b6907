/**
 * The application/x-www-form-urlencoded parser of the WHATWG URL Standard,
 * section 5.1, as used by `URLSearchParams`: the query of a request URL
 * (`new URL(request.url).searchParams`) and the URL fragment of the
 * client-side callback (`new URLSearchParams(hash.substring(1))`) are both
 * read through it, and `get(name)` returns the value of the FIRST pair with
 * that name.
 *
 * Percent-decoding is not modelled; the replacement of `+` by a space is.
 * `Serialize` is the partner of `Parse`: for names and values free of the
 * characters the format reserves, parsing undoes serializing.
 */
module FormUrlEncoded {
  import opened Wrappers

  type Pair = (string, string)

  /** The pieces of `s` between occurrences of `sep`, as JavaScript's `s.split(sep)`. */
  function Split(s: string, sep: char): (parts: seq<string>)
    ensures |parts| >= 1
    ensures forall i :: 0 <= i < |parts| ==> sep !in parts[i]
    decreases |s|
  {
    if s == [] then [[]]
    else
      var rest := Split(s[1..], sep);
      if s[0] == sep then [[]] + rest
      else [[s[0]] + rest[0]] + rest[1..]
  }

  /** The pieces put back together with `sep` between them. */
  function Join(parts: seq<string>, sep: char): string
    decreases |parts|
  {
    if |parts| == 0 then []
    else if |parts| == 1 then parts[0]
    else parts[0] + [sep] + Join(parts[1..], sep)
  }

  /** Joining the pieces of a split gives back the string. */
  lemma {:induction false} JoinSplit(s: string, sep: char)
    ensures Join(Split(s, sep), sep) == s
    decreases |s|
  {
    if s != [] {
      var rest := Split(s[1..], sep);
      JoinSplit(s[1..], sep);
      if s[0] != sep && |rest| > 1 {
        assert Join(rest, sep) == rest[0] + [sep] + Join(rest[1..], sep);
        assert ([[s[0]] + rest[0]] + rest[1..])[1..] == rest[1..];
      } else if s[0] != sep {
        assert [[s[0]] + rest[0]] + rest[1..] == [[s[0]] + rest[0]];
      } else {
        assert ([[]] + rest)[1..] == rest;
      }
    }
  }

  /** Splitting `a + tail`, where `a` has no separator, glues `a` to the first piece of `tail`. */
  lemma {:induction false} SplitAppend(a: string, tail: string, sep: char)
    requires sep !in a
    ensures Split(a + tail, sep) == [a + Split(tail, sep)[0]] + Split(tail, sep)[1..]
    decreases |a|
  {
    if a == [] {
      assert a + tail == tail;
      assert a + Split(tail, sep)[0] == Split(tail, sep)[0];
      assert [Split(tail, sep)[0]] + Split(tail, sep)[1..] == Split(tail, sep);
    } else {
      assert (a + tail)[0] == a[0];
      assert (a + tail)[1..] == a[1..] + tail;
      SplitAppend(a[1..], tail, sep);
      assert [a[0]] + (a[1..] + Split(tail, sep)[0]) == a + Split(tail, sep)[0];
    }
  }

  /** Splitting a join of separator-free pieces gives back the pieces. */
  lemma {:induction false} SplitJoin(parts: seq<string>, sep: char)
    requires |parts| >= 1
    requires forall i :: 0 <= i < |parts| ==> sep !in parts[i]
    ensures Split(Join(parts, sep), sep) == parts
    decreases |parts|
  {
    if |parts| == 1 {
      SplitAppend(parts[0], [], sep);
      assert parts[0] + [] == parts[0];
      assert [parts[0] + []] + [] == parts;
    } else {
      var tail := Join(parts[1..], sep);
      SplitJoin(parts[1..], sep);
      assert parts[0] + [sep] + tail == parts[0] + ([sep] + tail);
      SplitAppend(parts[0], [sep] + tail, sep);
      assert ([sep] + tail)[1..] == tail;
      assert Split([sep] + tail, sep) == [[]] + parts[1..];
      assert parts[0] + [] == parts[0];
      assert [parts[0]] + parts[1..] == parts;
    }
  }

  /**
   * One piece divided at its FIRST `=` into a name and a value; a piece
   * without `=` is a name with the empty value.
   */
  function SplitPair(piece: string): (r: Pair)
    ensures '=' !in r.0
    ensures '=' in piece ==> piece == r.0 + "=" + r.1
    ensures '=' !in piece ==> r == (piece, "")
    decreases |piece|
  {
    if piece == [] then ([], [])
    else if piece[0] == '=' then ([], piece[1..])
    else
      var (name, value) := SplitPair(piece[1..]);
      assert piece == [piece[0]] + piece[1..];
      ([piece[0]] + name, value)
  }

  /** A name without `=` followed by `=` and any value splits back into that name and value. */
  lemma {:induction false} SplitPairAt(name: string, value: string)
    requires '=' !in name
    ensures SplitPair(name + "=" + value) == (name, value)
    decreases |name|
  {
    if name == [] {
      assert name + "=" + value == "=" + value;
    } else {
      assert (name + "=" + value)[0] == name[0];
      assert (name + "=" + value)[1..] == name[1..] + "=" + value;
      SplitPairAt(name[1..], value);
      assert [name[0]] + name[1..] == name;
    }
  }

  /** Every `+` read as a space. */
  function Decode(s: string): (r: string)
    ensures |r| == |s| && '+' !in r
    ensures forall i :: 0 <= i < |s| && s[i] == '+' ==> r[i] == ' '
    ensures forall i :: 0 <= i < |s| && s[i] != '+' ==> r[i] == s[i]
  {
    seq(|s|, i requires 0 <= i < |s| => if s[i] == '+' then ' ' else s[i])
  }

  /** The pairs read from the pieces, skipping empty pieces, in order. */
  function ParsePieces(pieces: seq<string>): (pairs: seq<Pair>)
    ensures |pairs| <= |pieces|
    decreases |pieces|
  {
    if pieces == [] then []
    else if pieces[0] == [] then ParsePieces(pieces[1..])
    else
      var (name, value) := SplitPair(pieces[0]);
      [(Decode(name), Decode(value))] + ParsePieces(pieces[1..])
  }

  /** Parsing the pieces of a concatenation gives the pairs of each part, in order. */
  lemma {:induction false} ParsePiecesAppend(a: seq<string>, b: seq<string>)
    ensures ParsePieces(a + b) == ParsePieces(a) + ParsePieces(b)
    decreases |a|
  {
    if a == [] {
      assert a + b == b;
    } else {
      assert (a + b)[0] == a[0];
      assert (a + b)[1..] == a[1..] + b;
      ParsePiecesAppend(a[1..], b);
    }
  }

  /** An empty piece, wherever it stands, contributes no pair. */
  lemma ParsePiecesSkipsEmpty(a: seq<string>, b: seq<string>)
    ensures ParsePieces(a + [[]] + b) == ParsePieces(a + b)
  {
    var empty: seq<string> := [[]];
    assert ParsePieces(empty) == [] by {
      assert empty[0] == [] && empty[1..] == [];
    }
    ParsePiecesAppend(a + empty, b);
    ParsePiecesAppend(a, empty);
    ParsePiecesAppend(a, b);
    assert ParsePieces(a) + [] == ParsePieces(a);
  }

  /**
   * A non-empty piece, wherever it stands, contributes exactly one pair in
   * its place: the decoded name and value of its split at the first `=`.
   */
  lemma ParsePiecesNonEmpty(a: seq<string>, piece: string, b: seq<string>)
    requires piece != []
    ensures ParsePieces(a + [piece] + b) ==
      ParsePieces(a) + [(Decode(SplitPair(piece).0), Decode(SplitPair(piece).1))] + ParsePieces(b)
  {
    ParsePiecesAppend(a + [piece], b);
    ParsePiecesAppend(a, [piece]);
    assert [piece][1..] == [];
  }

  /** The name-value list of an application/x-www-form-urlencoded string. */
  function Parse(s: string): seq<Pair> {
    ParsePieces(Split(s, '&'))
  }

  /** One step of `Split`: the first character either ends the first piece or joins it. */
  lemma SplitCons(c: char, t: string, sep: char)
    ensures Split([c] + t, sep) ==
      if c == sep then [[]] + Split(t, sep) else [[c] + Split(t, sep)[0]] + Split(t, sep)[1..]
  {
    assert ([c] + t)[0] == c && ([c] + t)[1..] == t;
  }

  /** Concatenation is associative. */
  lemma AppendAssoc<T>(x: seq<T>, y: seq<T>, z: seq<T>)
    ensures x + (y + z) == (x + y) + z
  {
  }

  /** The head and the tail of a concatenation whose left part is non-empty. */
  lemma AppendHeadTail<T>(x: seq<T>, y: seq<T>)
    requires |x| >= 1
    ensures (x + y)[0] == x[0] && (x + y)[1..] == x[1..] + y
  {
  }

  /** Splitting at a separator splits each side on its own. */
  lemma {:induction false} SplitConcat(a: string, b: string, sep: char)
    ensures Split(a + [sep] + b, sep) == Split(a, sep) + Split(b, sep)
    decreases |a|
  {
    var right := Split(b, sep);
    if a == [] {
      assert a + [sep] + b == [sep] + b;
      SplitCons(sep, b, sep);
    } else {
      var c, tail := a[0], a[1..];
      var left := Split(tail, sep);
      SplitConcat(tail, b, sep);
      assert a + [sep] + b == [c] + (tail + [sep] + b);
      assert a == [c] + tail;
      SplitCons(c, tail + [sep] + b, sep);
      SplitCons(c, tail, sep);
      if c == sep {
        AppendAssoc([[]], left, right);
      } else {
        AppendHeadTail(left, right);
        AppendAssoc([[c] + left[0]], left[1..], right);
      }
    }
  }

  /** The pairs of `a&b` are the pairs of `a` followed by the pairs of `b`. */
  lemma ParseConcat(a: string, b: string)
    ensures Parse(a + "&" + b) == Parse(a) + Parse(b)
  {
    SplitConcat(a, b, '&');
    ParsePiecesAppend(Split(a, '&'), Split(b, '&'));
  }

  /** `new URLSearchParams(init)`: one leading `?` is dropped before parsing. */
  function FromString(init: string): seq<Pair> {
    if init != [] && init[0] == '?' then Parse(init[1..]) else Parse(init)
  }

  /** Exactly one leading `?` is dropped, and a string without one is parsed as it is. */
  lemma FromStringDropsQuestionMark(s: string)
    ensures FromString("?" + s) == Parse(s)
    ensures (s == [] || s[0] != '?') ==> FromString(s) == Parse(s)
  {
    assert ("?" + s)[1..] == s;
  }

  /** `URLSearchParams.get(name)`: the value of the first pair named `name`. */
  function Get(pairs: seq<Pair>, name: string): (r: Option<string>)
    ensures r.Some? ==> (name, r.value) in pairs
    ensures r.None? ==> forall i :: 0 <= i < |pairs| ==> pairs[i].0 != name
    decreases |pairs|
  {
    if pairs == [] then None
    else if pairs[0].0 == name then Some(pairs[0].1)
    else Get(pairs[1..], name)
  }

  /** `get` finds nothing exactly when no pair has the name, and otherwise the value of the first one that does. */
  lemma {:induction false} GetFirstOccurrence(pairs: seq<Pair>, name: string)
    ensures Get(pairs, name).None? <==> forall i :: 0 <= i < |pairs| ==> pairs[i].0 != name
    ensures Get(pairs, name).Some? ==>
      exists i :: 0 <= i < |pairs| && pairs[i] == (name, Get(pairs, name).value) &&
        forall j :: 0 <= j < i ==> pairs[j].0 != name
    decreases |pairs|
  {
    if pairs != [] && pairs[0].0 != name {
      GetFirstOccurrence(pairs[1..], name);
      assert forall i :: 1 <= i < |pairs| ==> pairs[i] == pairs[1..][i - 1];
      if Get(pairs, name).Some? {
        var i :| 0 <= i < |pairs[1..]| && pairs[1..][i] == (name, Get(pairs, name).value) &&
          forall j :: 0 <= j < i ==> pairs[1..][j].0 != name;
        assert pairs[i + 1] == (name, Get(pairs, name).value);
        assert forall j :: 0 <= j < i + 1 ==> pairs[j].0 != name by {
          forall j | 0 <= j < i + 1 ensures pairs[j].0 != name {
            if j > 0 { assert pairs[j] == pairs[1..][j - 1]; }
          }
        }
      }
    } else if pairs != [] {
      assert pairs[0] == (name, Get(pairs, name).value);
    }
  }

  /** JavaScript truthiness of a `get` result: absent (`null`) and the empty string are both false. */
  predicate Truthy(v: Option<string>) {
    v.Some? && v.value != ""
  }

  /** A `get` result is truthy exactly when it is a value other than `''`: `null ?? ''` is the empty string. */
  lemma TruthyIsNonEmptyValue(v: Option<string>)
    ensures Truthy(v) <==> v.GetOr("") != ""
    ensures !Truthy(None) && !Truthy(Some(""))
  {
  }

  /** Every space written as `+`: the serializer that `Decode` undoes. */
  function Encode(s: string): (r: string)
    ensures |r| == |s| && ' ' !in r
    ensures forall i :: 0 <= i < |s| && s[i] == ' ' ==> r[i] == '+'
    ensures forall i :: 0 <= i < |s| && s[i] != ' ' ==> r[i] == s[i]
    ensures forall c :: c != '+' && c != ' ' ==> (c in r <==> c in s)
  {
    var r := seq(|s|, i requires 0 <= i < |s| => if s[i] == ' ' then '+' else s[i]);
    assert forall c :: c != '+' && c != ' ' && c in s ==> c in r by {
      forall c | c != '+' && c != ' ' && c in s ensures c in r {
        var i :| 0 <= i < |s| && s[i] == c;
        assert r[i] == c;
      }
    }
    r
  }

  /** Decoding undoes encoding for text without `+`. */
  lemma DecodeEncode(s: string)
    requires '+' !in s
    ensures Decode(Encode(s)) == s
  {
    assert forall i :: 0 <= i < |s| ==> Decode(Encode(s))[i] == s[i];
  }

  /** One serialized pair: the encoded name, `=`, the encoded value. */
  function PairPiece(pair: Pair): string {
    Encode(pair.0) + "=" + Encode(pair.1)
  }

  /** The serialized pairs, one piece each, in order. */
  function PairPieces(pairs: seq<Pair>): (pieces: seq<string>)
    ensures |pieces| == |pairs|
    ensures forall i :: 0 <= i < |pairs| ==> pieces[i] == PairPiece(pairs[i])
  {
    seq(|pairs|, i requires 0 <= i < |pairs| => PairPiece(pairs[i]))
  }

  /** The serialization of a name-value list. */
  function Serialize(pairs: seq<Pair>): string {
    Join(PairPieces(pairs), '&')
  }

  /** Names and values free of the characters the format reserves (`=` only matters in names). */
  predicate Serializable(pairs: seq<Pair>) {
    forall i :: 0 <= i < |pairs| ==>
      '&' !in pairs[i].0 && '=' !in pairs[i].0 && '+' !in pairs[i].0 && '%' !in pairs[i].0 &&
      '&' !in pairs[i].1 && '+' !in pairs[i].1 && '%' !in pairs[i].1
  }

  /** Parsing each serialized pair gives the pair back. */
  lemma {:induction false} ParsePiecesSerialized(pairs: seq<Pair>)
    requires Serializable(pairs)
    ensures ParsePieces(PairPieces(pairs)) == pairs
    decreases |pairs|
  {
    var pieces := PairPieces(pairs);
    if pairs != [] {
      var (name, value) := pairs[0];
      assert pieces[0] == Encode(name) + "=" + Encode(value);
      assert pieces[0] != [];
      SplitPairAt(Encode(name), Encode(value));
      DecodeEncode(name);
      DecodeEncode(value);
      assert Serializable(pairs[1..]) by {
        forall i | 0 <= i < |pairs[1..]| ensures pairs[1..][i] == pairs[i + 1] { }
      }
      ParsePiecesSerialized(pairs[1..]);
      assert pieces[1..] == PairPieces(pairs[1..]) by {
        forall i | 0 <= i < |pairs| - 1 ensures pieces[1..][i] == PairPieces(pairs[1..])[i] {
          assert pairs[1..][i] == pairs[i + 1];
        }
      }
      assert ParsePieces(pieces) == [(name, value)] + ParsePieces(pieces[1..]);
    }
  }

  /** Round trip: parsing a serialized list of serializable pairs gives the list back. */
  lemma {:induction false} ParseSerialize(pairs: seq<Pair>)
    requires Serializable(pairs)
    ensures Parse(Serialize(pairs)) == pairs
  {
    var pieces := PairPieces(pairs);
    if pairs == [] {
      assert Serialize(pairs) == [];
    } else {
      forall i | 0 <= i < |pieces| ensures '&' !in pieces[i] {
        assert '&' !in Encode(pairs[i].0) && '&' !in Encode(pairs[i].1);
      }
      SplitJoin(pieces, '&');
    }
    ParsePiecesSerialized(pairs);
  }
}
