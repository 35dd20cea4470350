/**
  The send page's query-string decoder: a `?` or `#` at the front is dropped,
  the rest is split on `&`, and each piece is folded into a dictionary under
  the text before its first `=`. The value is the text between the first and
  second `=`, with `+` turned into a space and then percent-decoded; a piece
  without `=`, or with an empty value, stores `''`. A later piece overwrites
  an earlier one with the same key. The dictionary is a plain JavaScript
  object, so storing a string under `__proto__` goes to the prototype setter,
  which ignores it. A malformed escape makes the decoder throw: `None` here.
 */
module QueryString {
  import opened Wrappers
  import opened Text
  import UriComponent

  type Params = map<string, string>

  /** The one key under which an assignment does not add an entry. */
  const ProtoKey: string := "__proto__"

  /** Drops a single leading `?` or `#`. */
  function StripLead(query: string): (rest: string)
    ensures |query| - 1 <= |rest| <= |query| && rest == query[|query| - |rest|..]
    ensures |rest| < |query| <==> query != "" && (query[0] == '?' || query[0] == '#')
  {
    if query != "" && (query[0] == '?' || query[0] == '#') then query[1..] else query
  }

  /** `s.replace(/\+/g, ' ')`. */
  function PlusToSpace(s: string): (r: string)
    ensures |r| == |s|
    ensures forall i :: 0 <= i < |s| ==> r[i] == if s[i] == '+' then ' ' else s[i]
  {
    if s == "" then "" else [if s[0] == '+' then ' ' else s[0]] + PlusToSpace(s[1..])
  }

  /** The key of a piece: `const [key] = piece.split('=')`. */
  function PieceKey(piece: string): (key: string)
    ensures '=' !in key && key <= piece
    ensures key == piece || piece[|key|] == '='
    ensures forall c <- key :: c in piece
  {
    var parts := Split(piece, '=');
    JoinHead(parts, '=');
    assert forall i :: 0 <= i < |parts[0]| ==> parts[0][i] == piece[i];
    parts[0]
  }

  /** The raw value of a piece: the second element of `piece.split('=')`, absent when there is none. */
  function RawValue(piece: string): (v: Option<string>)
    ensures v.None? <==> '=' !in piece
    ensures v.Some? ==> '=' !in v.value && PieceKey(piece) + "=" + v.value <= piece
    ensures v.Some? ==> var end := |PieceKey(piece)| + 1 + |v.value|; end == |piece| || piece[end] == '='
  {
    var parts := Split(piece, '=');
    JoinHead(parts, '=');
    if |parts| >= 2 then
      JoinHead(parts[1..], '=');
      assert parts[1..][0] == parts[1];
      Some(parts[1])
    else None
  }

  /** `value ? decodeURIComponent(value.replace(/\+/g, ' ')) : ''`; `None` where decoding throws. */
  function PieceValue(piece: string): (r: Option<string>)
    ensures RawValue(piece).None? || RawValue(piece) == Some("") ==> r == Some("")
    ensures r.None? ==> RawValue(piece).Some? && '%' in RawValue(piece).value
  {
    match RawValue(piece)
    case Some(v) => if v != "" then UriComponent.Decode(PlusToSpace(v)) else Some("")
    case None => Some("")
  }

  /** One step of the reduce: `params[key] = <value>`. */
  function AddPiece(params: Params, piece: string): (r: Option<Params>)
    ensures r.None? <==> PieceValue(piece).None?
    ensures r.Some? ==> forall k <- r.value :: k in params || (k == PieceKey(piece) && k != ProtoKey)
    ensures r.Some? ==> forall k <- params :: k in r.value && (k != PieceKey(piece) ==> r.value[k] == params[k])
    ensures r.Some? && PieceKey(piece) != ProtoKey ==> PieceKey(piece) in r.value && r.value[PieceKey(piece)] == PieceValue(piece).value
  {
    match PieceValue(piece)
    case None => None
    case Some(v) => Some(if PieceKey(piece) == ProtoKey then params else params[PieceKey(piece) := v])
  }

  /** The reduce over the `&`-pieces, left to right, from the accumulator `params`. */
  function Collect(pieces: seq<string>, params: Params): (r: Option<Params>)
    ensures r.Some? ==> params.Keys <= r.value.Keys
    ensures r.Some? && (forall k <- params :: PlainKey(k)) && (forall p <- pieces :: '&' !in p) ==>
      forall k <- r.value :: PlainKey(k)
    decreases |pieces|
  {
    if pieces == [] then Some(params)
    else match AddPiece(params, pieces[0])
      case None => None
      case Some(next) => Collect(pieces[1..], next)
  }

  /** `getQueryStringParams(query)`; `None` where it throws. */
  function ParseQuery(query: string): (r: Option<Params>)
    ensures r.Some? ==> forall k <- r.value :: PlainKey(k)
  {
    if query == "" then Some(map[]) else Collect(Split(StripLead(query), '&'), map[])
  }

  /** An empty query gives the empty dictionary. */
  lemma EmptyQuery()
    ensures ParseQuery("") == Some(map[])
  {
  }

  /** A lone `?` (or `#`) is not empty: it leaves one empty piece, stored under the empty key. */
  lemma LoneMarker(c: char)
    requires c == '?' || c == '#'
    ensures ParseQuery([c]) == Some(map["" := ""])
  {
    assert StripLead([c]) == "";
    assert Split("", '=') == [""];
  }

  /** Exactly one leading `?` or `#` is dropped before splitting on `&`. */
  lemma DropsOneMarker(c: char, rest: string)
    requires c == '?' || c == '#'
    requires rest != ""
    ensures ParseQuery([c] + rest) == Collect(Split(rest, '&'), map[])
    ensures rest[0] != '?' && rest[0] != '#' ==> ParseQuery([c] + rest) == ParseQuery(rest)
  {
    assert ([c] + rest)[1..] == rest;
  }

  /** The key is the text before the first `=`, the raw value the text up to the second. */
  lemma {:induction false} PieceParts(key: string, value: string, tail: string)
    requires '=' !in key && '=' !in value
    requires tail == "" || tail[0] == '='
    ensures PieceKey(key + "=" + value + tail) == key
    ensures RawValue(key + "=" + value + tail) == Some(value)
  {
    var piece := key + "=" + value + tail;
    assert piece == key + ['='] + (value + tail);
    SplitAtFirst(key, '=', value + tail);
    if tail == "" {
      assert value + tail == value;
      SplitNoSeparator(value, '=');
    } else {
      assert value + tail == value + ['='] + tail[1..];
      SplitAtFirst(value, '=', tail[1..]);
    }
  }

  /** A non-empty value has `+` turned into a space before it is percent-decoded. */
  lemma PieceValueDecodes(key: string, value: string)
    requires '=' !in key && '=' !in value && value != ""
    ensures PieceKey(key + "=" + value) == key
    ensures PieceValue(key + "=" + value) == UriComponent.Decode(PlusToSpace(value))
  {
    PieceParts(key, value, "");
    assert key + "=" + value + "" == key + "=" + value;
  }

  /** A query of one piece, not starting with `?` or `#`, stores just that piece. */
  lemma SinglePiece(query: string)
    requires query != "" && query[0] != '?' && query[0] != '#' && '&' !in query
    ensures ParseQuery(query) == AddPiece(map[], query)
  {
    assert StripLead(query) == query;
    SplitNoSeparator(query, '&');
    assert ParseQuery(query) == Collect([query], map[]);
    match AddPiece(map[], query)
    case None =>
    case Some(next) =>
      assert [query][1..] == [];
      assert Collect([query], map[]) == Collect([], next);
  }

  /** A key that can open a query: no `=` or `&`, not `__proto__`, no leading `?` or `#`. */
  predicate LeadingKey(key: string)
  {
    PlainKey(key) && key != "" && key[0] != '?' && key[0] != '#'
  }

  lemma OnePair(key: string, value: string)
    requires LeadingKey(key)
    requires '=' !in value && '&' !in value && value != ""
    ensures ParseQuery(key + "=" + value) ==
      match UriComponent.Decode(PlusToSpace(value))
      case None => None
      case Some(v) => Some(map[key := v])
  {
    var q := key + "=" + value;
    assert q[0] == key[0];
    assert '&' !in q;
    SinglePiece(q);
    PieceValueDecodes(key, value);
  }

  /** The `+` rewrite works character by character. */
  lemma PlusToSpaceConcat(x: string, y: string)
    ensures PlusToSpace(x + y) == PlusToSpace(x) + PlusToSpace(y)
  {
    var px, py := PlusToSpace(x), PlusToSpace(y);
    var l, r := PlusToSpace(x + y), px + py;
    assert |l| == |r|;
    forall i | 0 <= i < |l| ensures l[i] == r[i] {
      if i < |x| {
        assert (x + y)[i] == x[i] && r[i] == px[i];
      } else {
        assert (x + y)[i] == y[i - |x|] && r[i] == py[i - |x|];
      }
    }
  }

  /** The one `+` between two plus-free texts becomes a space. */
  lemma PlusBetween(a: string, b: string)
    requires '+' !in a && '+' !in b
    ensures PlusToSpace(a + "+" + b) == a + " " + b
  {
    var raw, spaced := a + "+" + b, a + " " + b;
    forall i | 0 <= i < |raw| ensures PlusToSpace(raw)[i] == spaced[i] {
      if i < |a| {
        assert raw[i] == a[i] == spaced[i];
      } else if i > |a| {
        assert raw[i] == b[i - |a| - 1] == spaced[i];
      }
    }
  }

  /** `+` is a space, but an escaped `%2B` is a plus sign: the rewrite comes before decoding. */
  lemma PlusIsSpace(key: string, a: string, b: string)
    requires LeadingKey(key)
    requires '%' !in a && '+' !in a && '=' !in a && '&' !in a
    requires '%' !in b && '+' !in b && '=' !in b && '&' !in b
    ensures ParseQuery(key + "=" + a + "+" + b) == Some(map[key := a + " " + b])
  {
    var raw := a + "+" + b;
    assert key + "=" + a + "+" + b == key + "=" + raw;
    assert '=' !in raw && '&' !in raw;
    OnePair(key, raw);
    PlusBetween(a, b);
    assert '%' !in a + " " + b;
    UriComponent.DecodeNoEscapes(a + " " + b);
  }

  lemma EscapedPlusIsPlus(key: string)
    requires LeadingKey(key)
    ensures ParseQuery(key + "=%2B") == Some(map[key := "+"])
  {
    var raw := "%2B";
    assert key + "=%2B" == key + "=" + raw;
    OnePair(key, raw);
    assert PlusToSpace(raw) == raw;
    assert UriComponent.EscapedByte(raw) == Some(0x2B);
    assert raw[3..] == "";
    assert UriComponent.Decode(raw[3..]) == Some("");
    assert UriComponent.SequenceLength(0x2B) == 1;
    assert UriComponent.Continuations(raw[3..], 0) == Some([]);
    assert UriComponent.CodePoint(0x2B, []) == 0x2B;
    assert (0x2B as char) == '+';
    assert UriComponent.Decode(raw) == UriComponent.Cons('+', UriComponent.Decode(raw[3..]));
    assert ['+'] + "" == "+";
    assert UriComponent.Decode(PlusToSpace(raw)) == Some("+");
  }

  /** A `__proto__` entry is never stored, yet its value is still decoded and can throw. */
  lemma ProtoKeyIgnored(value: string)
    requires '=' !in value && '&' !in value
    ensures ParseQuery(ProtoKey + "=" + value) == if PieceValue(ProtoKey + "=" + value).Some? then Some(map[]) else None
    ensures value != "" ==> (ParseQuery(ProtoKey + "=" + value).None? <==> UriComponent.Decode(PlusToSpace(value)).None?)
  {
    var q := ProtoKey + "=" + value;
    assert q[0] == '_';
    assert '&' !in q;
    SinglePiece(q);
    PieceParts(ProtoKey, value, "");
    assert ProtoKey + "=" + value + "" == q;
  }

  /** A piece without `=` is all key, and stores `''`. */
  lemma PieceWithoutEquals(piece: string)
    requires '=' !in piece
    ensures PieceKey(piece) == piece && RawValue(piece) == None && PieceValue(piece) == Some("")
  {
    SplitNoSeparator(piece, '=');
  }

  /** The reduce throws exactly when some piece's value fails to decode. */
  lemma {:induction false} CollectFails(pieces: seq<string>, params: Params)
    ensures Collect(pieces, params).None? <==> exists i :: 0 <= i < |pieces| && PieceValue(pieces[i]).None?
    decreases |pieces|
  {
    if pieces != [] {
      match AddPiece(params, pieces[0])
      case None =>
        assert PieceValue(pieces[0]).None?;
      case Some(next) =>
        CollectFails(pieces[1..], next);
        assert Collect(pieces, params) == Collect(pieces[1..], next);
        if i :| 0 <= i < |pieces| && PieceValue(pieces[i]).None? {
          assert i != 0 && PieceValue(pieces[1..][i - 1]).None?;
        }
        if j :| 0 <= j < |pieces[1..]| && PieceValue(pieces[1..][j]).None? {
          assert PieceValue(pieces[j + 1]).None?;
        }
    }
  }

  /** Some piece has key `k`. */
  predicate KeyIn(pieces: seq<string>, k: string)
  {
    exists i :: 0 <= i < |pieces| && PieceKey(pieces[i]) == k
  }

  /** The keys of the result: those of the accumulator and every piece's key but `__proto__`. */
  lemma {:induction false} CollectKeys(pieces: seq<string>, params: Params)
    requires Collect(pieces, params).Some?
    ensures forall k :: k in Collect(pieces, params).value <==> (k in params || (KeyIn(pieces, k) && k != ProtoKey))
    decreases |pieces|
  {
    if pieces != [] {
      var next := AddPiece(params, pieces[0]).value;
      CollectKeys(pieces[1..], next);
      forall k ensures KeyIn(pieces, k) <==> (PieceKey(pieces[0]) == k || KeyIn(pieces[1..], k)) {
        if KeyIn(pieces[1..], k) {
          var i :| 0 <= i < |pieces[1..]| && PieceKey(pieces[1..][i]) == k;
          assert PieceKey(pieces[i + 1]) == k;
        }
        if KeyIn(pieces, k) && PieceKey(pieces[0]) != k {
          var i :| 0 <= i < |pieces| && PieceKey(pieces[i]) == k;
          assert PieceKey(pieces[1..][i - 1]) == k;
        }
      }
    }
  }

  /** The value stored under a key is that of the last piece with that key. */
  lemma {:induction false} LastPieceWins(pieces: seq<string>, params: Params, j: nat)
    requires j < |pieces|
    requires Collect(pieces, params).Some?
    requires PieceKey(pieces[j]) != ProtoKey
    requires forall i :: j < i < |pieces| ==> PieceKey(pieces[i]) != PieceKey(pieces[j])
    ensures PieceValue(pieces[j]).Some?
    ensures PieceKey(pieces[j]) in Collect(pieces, params).value
    ensures Collect(pieces, params).value[PieceKey(pieces[j])] == PieceValue(pieces[j]).value
    decreases |pieces|
  {
    var step := AddPiece(params, pieces[0]);
    assert step.Some?;
    var next := step.value;
    assert Collect(pieces, params) == Collect(pieces[1..], next);
    if j == 0 {
      var k := PieceKey(pieces[0]);
      assert k in next && next[k] == PieceValue(pieces[0]).value;
      forall i | 0 <= i < |pieces[1..]| ensures PieceKey(pieces[1..][i]) != k {
        assert pieces[1..][i] == pieces[i + 1];
      }
      CollectKeeps(pieces[1..], next, k);
    } else {
      assert pieces[1..][j - 1] == pieces[j];
      forall i | j - 1 < i < |pieces[1..]| ensures PieceKey(pieces[1..][i]) != PieceKey(pieces[1..][j - 1]) {
        assert pieces[1..][i] == pieces[i + 1];
      }
      LastPieceWins(pieces[1..], next, j - 1);
    }
  }

  /** An entry no later piece mentions survives the rest of the reduce. */
  lemma {:induction false} CollectKeeps(pieces: seq<string>, params: Params, k: string)
    requires Collect(pieces, params).Some?
    requires k in params
    requires forall i :: 0 <= i < |pieces| ==> PieceKey(pieces[i]) != k
    ensures k in Collect(pieces, params).value && Collect(pieces, params).value[k] == params[k]
    decreases |pieces|
  {
    if pieces != [] {
      CollectKeeps(pieces[1..], AddPiece(params, pieces[0]).value, k);
    }
  }

  /** A query string built from key/value pairs with `encodeURIComponent` on each value. */
  function BuildQuery(pairs: seq<(string, string)>): string
    requires |pairs| >= 1
  {
    Join(Pieces(pairs), '&')
  }

  function Pieces(pairs: seq<(string, string)>): (pieces: seq<string>)
    ensures |pieces| == |pairs|
  {
    if pairs == [] then [] else [pairs[0].0 + "=" + UriComponent.Encode(pairs[0].1)] + Pieces(pairs[1..])
  }

  /** The dictionary the pairs describe, later pairs overriding earlier ones. */
  function Assign(pairs: seq<(string, string)>, params: Params): Params
  {
    if pairs == [] then params else Assign(pairs[1..], params[pairs[0].0 := pairs[0].1])
  }

  /** A key that survives query-string splitting and is stored as an own entry. */
  predicate PlainKey(k: string)
  {
    '=' !in k && '&' !in k && k != ProtoKey
  }

  /** One encoded pair is read back as its key and value. */
  lemma PairDecodes(key: string, value: string)
    requires PlainKey(key)
    ensures PieceKey(key + "=" + UriComponent.Encode(value)) == key
    ensures PieceValue(key + "=" + UriComponent.Encode(value)) == Some(value)
  {
    var e := UriComponent.Encode(value);
    assert '=' !in e by {
      forall i | 0 <= i < |e| ensures e[i] != '=' { }
    }
    PieceParts(key, e, "");
    assert key + "=" + e + "" == key + "=" + e;
    UriComponent.DecodeEncode(value);
    if e != "" {
      assert PlusToSpace(e) == e;
    } else {
      assert UriComponent.Decode(e) == Some("");
    }
  }

  lemma {:induction false} CollectPieces(pairs: seq<(string, string)>, params: Params)
    requires forall p <- pairs :: PlainKey(p.0)
    ensures Collect(Pieces(pairs), params) == Some(Assign(pairs, params))
    decreases |pairs|
  {
    if pairs != [] {
      PairDecodes(pairs[0].0, pairs[0].1);
      assert Pieces(pairs)[1..] == Pieces(pairs[1..]);
      CollectPieces(pairs[1..], params[pairs[0].0 := pairs[0].1]);
    }
  }

  /** Decoding a query built from pairs gives back the dictionary of those pairs. */
  lemma QueryRoundTrip(pairs: seq<(string, string)>)
    requires |pairs| >= 1
    requires forall p <- pairs :: PlainKey(p.0)
    requires pairs[0].0 == "" || (pairs[0].0[0] != '?' && pairs[0].0[0] != '#')
    ensures ParseQuery(BuildQuery(pairs)) == Some(Assign(pairs, map[]))
  {
    ParseBuiltQuery(pairs);
    CollectPieces(pairs, map[]);
  }

  /** A built query is split back into its pieces. */
  lemma ParseBuiltQuery(pairs: seq<(string, string)>)
    requires |pairs| >= 1
    requires forall p <- pairs :: PlainKey(p.0)
    requires pairs[0].0 == "" || (pairs[0].0[0] != '?' && pairs[0].0[0] != '#')
    ensures ParseQuery(BuildQuery(pairs)) == Collect(Pieces(pairs), map[])
  {
    FirstCharOfQuery(pairs);
    ParseUnmarked(BuildQuery(pairs));
    PiecesSplitBack(pairs);
  }

  /** Without a leading `?` or `#`, the whole query is split on `&`. */
  lemma ParseUnmarked(q: string)
    requires q != "" && q[0] != '?' && q[0] != '#'
    ensures ParseQuery(q) == Collect(Split(q, '&'), map[])
  {
    assert StripLead(q) == q;
  }

  lemma PiecesSplitBack(pairs: seq<(string, string)>)
    requires |pairs| >= 1
    requires forall p <- pairs :: PlainKey(p.0)
    ensures Split(BuildQuery(pairs), '&') == Pieces(pairs)
  {
    PiecesWithoutAmpersand(pairs);
    SplitJoin(Pieces(pairs), '&');
  }

  lemma {:induction false} PiecesWithoutAmpersand(pairs: seq<(string, string)>)
    requires forall p <- pairs :: PlainKey(p.0)
    ensures forall p <- Pieces(pairs) :: '&' !in p
    decreases |pairs|
  {
    if pairs != [] {
      var k, e := pairs[0].0, UriComponent.Encode(pairs[0].1);
      assert '&' !in e by {
        forall j | 0 <= j < |e| ensures e[j] != '&' { }
      }
      assert '&' !in k + "=" + e;
      PiecesWithoutAmpersand(pairs[1..]);
      assert Pieces(pairs) == [k + "=" + e] + Pieces(pairs[1..]);
    }
  }

  lemma FirstCharOfQuery(pairs: seq<(string, string)>)
    requires |pairs| >= 1
    requires pairs[0].0 == "" || (pairs[0].0[0] != '?' && pairs[0].0[0] != '#')
    ensures BuildQuery(pairs) != ""
    ensures BuildQuery(pairs)[0] == if pairs[0].0 == "" then '=' else pairs[0].0[0]
  {
    var first := pairs[0].0 + "=" + UriComponent.Encode(pairs[0].1);
    assert Pieces(pairs)[0] == first;
    var q := BuildQuery(pairs);
    if |pairs| == 1 {
      assert q == first;
    } else {
      assert q == first + ['&'] + Join(Pieces(pairs)[1..], '&');
    }
  }
}
