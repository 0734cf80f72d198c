/** The byte-level tokenizer: its tables, encoding and decoding, and how they undo each other. */
module Tokenizer {
  import opened Arith
  import opened Results
  import opened BpeGreedy
  import opened BpeHeap
  import opened ByteCodec
  import opened Pretokenizer
  import Utf8

  // ---- the tables -------------------------------------------------------------------------------

  /** A vocabulary gives every token string the first of its places in the list. */
  ghost predicate FirstPlaces(tokens: seq<Text>, vocab: Vocab) {
    && (forall t :: t in vocab ==> 0 <= vocab[t] < |tokens| && tokens[vocab[t]] == t && t !in tokens[..vocab[t]])
    && (forall i :: 0 <= i < |tokens| ==> tokens[i] in vocab)
  }

  /** Builds the two vocabulary tables from the token list. */
  method ReadTokens(tokens: seq<Text>) returns (idToToken: seq<Text>, tokenToId: Vocab)
    ensures idToToken == tokens && FirstPlaces(tokens, tokenToId)
  {
    idToToken, tokenToId := [], map[];
    for i := 0 to |tokens|
      invariant idToToken == tokens[..i]
      invariant forall t :: t in tokenToId ==>
        0 <= tokenToId[t] < i && tokens[tokenToId[t]] == t && t !in tokens[..tokenToId[t]]
      invariant forall j :: 0 <= j < i ==> tokens[j] in tokenToId
    {
      if tokens[i] !in tokenToId {
        tokenToId := tokenToId[tokens[i] := i];
      }
      idToToken := idToToken + [tokens[i]];
    }
  }

  const BLANK: byte := 32

  /** Where a merge rule is cut: its first blank after the first byte. */
  function CutFrom(rule: Text, i: nat): (r: Option<nat>)
    ensures r.Some? ==> i <= r.value < |rule| && rule[r.value] == BLANK
    ensures forall j :: i <= j < (if r.Some? then r.value else |rule|) ==> rule[j] != BLANK
    decreases |rule| - i
  {
    if i >= |rule| then None else if rule[i] == BLANK then Some(i) else CutFrom(rule, i + 1)
  }

  /** The two sides of a merge rule. */
  function Sides(rule: Text): Option<(Text, Text)> {
    match CutFrom(rule, 1)
    case Some(i) => Some((rule[..i], rule[i + 1..]))
    case None => None
  }

  /** The rank of a pair is the first of the n first places at which the list merges it. */
  ghost predicate RanksOf(merges: seq<Text>, n: nat, ranks: Ranks)
    requires n <= |merges|
  {
    && (forall pair :: pair in ranks ==> IsRank(merges, n, pair, ranks[pair]))
    && (forall i :: 0 <= i < n ==> Sides(merges[i]).Some? && Sides(merges[i]).value in ranks)
  }

  ghost predicate IsRank(merges: seq<Text>, n: nat, pair: (Text, Text), rank: int)
    requires n <= |merges|
  {
    0 <= rank < n && Sides(merges[rank]) == Some(pair)
    && forall i :: 0 <= i < rank ==> Sides(merges[i]) != Some(pair)
  }

  /** Builds the merge ranks; a rule without a blank is an error. */
  method ReadMerges(merges: seq<Text>) returns (r: Result<Ranks, nat>)
    ensures r.Ok? ==> RanksOf(merges, |merges|, r.value)
    ensures r.Err? ==> r.error < |merges| && Sides(merges[r.error]).None?
  {
    hide Sides;
    var ranks: Ranks := map[];
    for i := 0 to |merges|
      invariant RanksOf(merges, i, ranks)
    {
      var sides := Sides(merges[i]);
      if sides.None? {
        return Err(i);
      }
      if sides.value !in ranks {
        ranks := ranks[sides.value := i];
      }
    }
    r := Ok(ranks);
  }

  // ---- the first pieces ---------------------------------------------------------------------------

  /** The pieces of encoded code points are their encodings, one each. */
  lemma {:induction false} CharsOfEncoded(cpts: seq<nat>)
    requires Utf8.Encodable(cpts)
    ensures |Chars(Utf8.EncodeAll(cpts))| == |cpts|
    ensures forall i :: 0 <= i < |cpts| ==> Chars(Utf8.EncodeAll(cpts))[i] == Utf8.Encode(cpts[i])
    decreases |cpts|
  {
    if cpts != [] {
      var e, rest := Utf8.Encode(cpts[0]), Utf8.EncodeAll(cpts[1..]);
      LeadLengthFits(cpts[0]);
      assert (e + rest)[0] == e[0] && (e + rest)[..|e|] == e && (e + rest)[|e|..] == rest;
      hide Utf8.Encode;
      CharsOfEncoded(cpts[1..]);
      assert Chars(e + rest) == [e] + Chars(rest);
      assert forall i :: 1 <= i < |cpts| ==> cpts[i] == cpts[1..][i - 1];
    }
  }

  lemma LeadLengthFits(c: nat)
    requires c < Utf8.LIMIT
    ensures Utf8Len(Utf8.Encode(c)[0]) == |Utf8.Encode(c)|
  {
  }

  /** The first symbols that `BuildSymbols` lists for encoded code points are their encodings. */
  lemma FirstSymbolsAre(word: Text, syms: seq<Symbol>, cpts: seq<nat>)
    requires Linked(word, syms, Identity(|syms|)) && Pieces(word, syms, Identity(|syms|)) == Chars(word)
    requires Utf8.Encodable(cpts) && word == Utf8.EncodeAll(cpts)
    ensures |syms| == |cpts| && forall i :: 0 <= i < |cpts| ==>
      syms[i].start + syms[i].n <= |word| && word[syms[i].start..syms[i].start + syms[i].n] == Utf8.Encode(cpts[i])
  {
    hide *;
    CharsOfEncoded(cpts);
    forall i | 0 <= i < |cpts|
      ensures syms[i].start + syms[i].n <= |word| && word[syms[i].start..syms[i].start + syms[i].n] == Utf8.Encode(cpts[i])
    {
      FirstSymbolIs(word, syms, i);
    }
  }

  lemma FirstSymbolIs(word: Text, syms: seq<Symbol>, i: nat)
    requires i < |syms| && Linked(word, syms, Identity(|syms|))
    ensures syms[i].start + syms[i].n <= |word|
    ensures Pieces(word, syms, Identity(|syms|))[i] == word[syms[i].start..syms[i].start + syms[i].n]
  {
    hide Linked;
    hide TextOf;
    SymbolInWord(word, syms, Identity(|syms|), i);
    SymbolText(word, syms[i]);
  }

  // ---- the ids of pieces --------------------------------------------------------------------------

  /** A piece of the vocabulary becomes its id. */
  lemma {:induction false} KnownTokens(pieces: seq<Text>, vocab: Vocab)
    requires forall i :: 0 <= i < |pieces| ==> pieces[i] in vocab
    ensures |Tokens(pieces, vocab)| == |pieces| && forall i :: 0 <= i < |pieces| ==> Tokens(pieces, vocab)[i] == vocab[pieces[i]]
  {
    if pieces != [] {
      KnownTokens(pieces[1..], vocab);
      assert Tokens(pieces, vocab) == [vocab[pieces[0]]] + Tokens(pieces[1..], vocab);
    }
  }

  /** Any other piece becomes the ids of those of its bytes that are in the vocabulary. */
  lemma {:induction false} UnknownTokens(piece: Text, vocab: Vocab, i: nat)
    requires piece !in vocab && i < |piece|
    ensures Tokens([piece], vocab)
         == ByteTokens(piece[..i], vocab) + (if [piece[i]] in vocab then [vocab[[piece[i]]]] else []) + ByteTokens(piece[i + 1..], vocab)
    ensures ByteTokens([], vocab) == []
  {
    OneTokens(piece, vocab);
    ByteTokensAt(piece, vocab, i);
  }

  lemma {:induction false} ByteTokensAt(text: Text, vocab: Vocab, i: nat)
    requires i < |text|
    ensures ByteTokens(text, vocab)
         == ByteTokens(text[..i], vocab) + (if [text[i]] in vocab then [vocab[[text[i]]]] else []) + ByteTokens(text[i + 1..], vocab)
    decreases i
  {
    if i > 0 {
      ByteTokensAt(text[1..], vocab, i - 1);
      assert text[..i][1..] == text[1..][..i - 1] && text[1..][i..] == text[i + 1..];
    }
  }

  // ---- byte-level text --------------------------------------------------------------------------

  function CodePoints(bytes: Text): (r: seq<nat>)
    ensures |r| == |bytes|
  {
    seq(|bytes|, i requires 0 <= i < |bytes| => CodePoint(bytes[i]))
  }

  /** A byte string spelled with the printable code points of its bytes. */
  function Printable(bytes: Text): Text {
    Utf8.EncodeAll(CodePoints(bytes))
  }

  lemma PrintableSplits(a: Text, b: Text)
    ensures Printable(a + b) == Printable(a) + Printable(b)
  {
    hide CodePoint;
    assert CodePoints(a + b) == CodePoints(a) + CodePoints(b);
    Utf8.EncodeAllSplits(CodePoints(a), CodePoints(b));
  }

  lemma PrintableByte(b: byte)
    ensures Printable([b]) == Utf8.Encode(CodePoint(b))
  {
    assert CodePoints([b]) == [CodePoint(b)];
    Utf8.EncodeAllOne(CodePoint(b));
  }

  /** The word of some code points. */
  function WordOf(cpts: seq<nat>): Text {
    Printable(Utf8.EncodeAll(cpts))
  }

  lemma WordOfSplits(a: seq<nat>, b: seq<nat>)
    ensures WordOf(a + b) == WordOf(a) + WordOf(b)
  {
    Utf8.EncodeAllSplits(a, b);
    PrintableSplits(Utf8.EncodeAll(a), Utf8.EncodeAll(b));
  }

  lemma WordOfOne(c: nat)
    ensures WordOf([c]) == Printable(Utf8.Encode(c))
  {
    Utf8.EncodeAllOne(c);
  }

  function WordsOf(cpts: seq<nat>, ranges: seq<(nat, nat)>): (r: seq<Text>)
    ensures |r| == |ranges|
  {
    seq(|ranges|, i requires 0 <= i < |ranges| => WordOf(Stretch(cpts, ranges[i])))
  }

  /** The words of a text. */
  function WordsIn(k: Classes, text: Text): seq<Text> {
    WordsOf(Utf8.Decode(text), Words(k, Utf8.Decode(text), 0))
  }

  /** The first pieces of a printed word are its printed bytes, one each. */
  lemma FirstPieces(bytes: Text)
    ensures |Chars(Printable(bytes))| == |bytes|
    ensures forall i :: 0 <= i < |bytes| ==> Chars(Printable(bytes))[i] == Utf8.Encode(CodePoint(bytes[i]))
  {
    forall i | 0 <= i < |bytes| ensures CodePoints(bytes)[i] < Utf8.LIMIT {
      CodePointsDiffer(bytes[i], bytes[i]);
    }
    hide CodePoint;
    hide Utf8.Encode;
    CharsOfEncoded(CodePoints(bytes));
  }

  method ByteEncode(codec: Codec, cpts: seq<nat>, start: nat, len: nat) returns (s: Text)
    requires codec.Valid() && start + len <= |cpts|
    ensures s == WordOf(Stretch(cpts, (start, len)))
  {
    hide Utf8.Encode;
    hide Printable;
    hide WordOf;
    hide CodePoint;
    s := [];
    NoWord();
    assert cpts[start..start] == [];
    for i := start to start + len
      invariant s == WordOf(cpts[start..i])
    {
      var u := Utf8.Encode(cpts[i]);
      ghost var before := s;
      assert u[..0] == [];
      NoPrintable();
      for j := 0 to |u|
        invariant s == before + Printable(u[..j])
      {
        PrintableSplits(u[..j], [u[j]]);
        PrintableByte(u[j]);
        assert u[..j + 1] == u[..j] + [u[j]];
        s := s + codec.byteToStr[u[j]];
      }
      assert u[..|u|] == u;
      WordOfOne(cpts[i]);
      WordOfSplits(cpts[start..i], [cpts[i]]);
      assert cpts[start..i + 1] == cpts[start..i] + [cpts[i]];
    }
  }

  lemma NoPrintable()
    ensures Printable([]) == []
  {
  }

  lemma NoWord()
    ensures WordOf([]) == []
  {
  }

  method Pretokenize(codec: Codec, k: Classes, text: Text) returns (words: seq<Text>)
    requires codec.Valid() && Sound(k)
    ensures words == WordsIn(k, text)
  {
    hide WordOf;
    hide Words;
    hide Utf8.Decode;
    var cpts := Utf8.DecodeBytes(text);
    DecodedInBounds(text);
    var ranges := QwenSplit(k, cpts);
    RangesInside(k, cpts, 0);
    words := [];
    for i := 0 to |ranges|
      invariant words == WordsOf(cpts, ranges)[..i]
    {
      var word := ByteEncode(codec, cpts, ranges[i].0, ranges[i].1);
      words := words + [word];
    }
  }

  lemma DecodedInBounds(text: Text)
    ensures forall i :: 0 <= i < |Utf8.Decode(text)| ==> Utf8.Decode(text)[i] != OUT_OF_RANGE
  {
    hide Utf8.DecodeFrom;
    Utf8.DecodedIsEncodable(text, 0);
  }

  lemma {:induction false} RangesInside(k: Classes, s: seq<nat>, p: nat)
    requires p <= |s|
    ensures forall i :: 0 <= i < |Words(k, s, p)| ==> Words(k, s, p)[i].0 + Words(k, s, p)[i].1 <= |s|
    decreases |s| - p
  {
    hide WordEnd;
    if p < |s| {
      RangesInside(k, s, WordEnd(k, s, p));
    }
  }

  // ---- decoding ---------------------------------------------------------------------------------

  /** The token strings of the known ids, joined. */
  function TokenText(idToToken: seq<Text>, ids: seq<int>): Text {
    if ids == [] then []
    else (if 0 <= ids[0] < |idToToken| then idToToken[ids[0]] else []) + TokenText(idToToken, ids[1..])
  }

  /** Code points back to bytes: a byte's own code point to the byte, any other to its UTF-8. */
  function Unprint(cptToByte: map<nat, byte>, cpts: seq<nat>): Text {
    if cpts == [] then []
    else (if cpts[0] in cptToByte then [cptToByte[cpts[0]]] else Utf8.Encode(cpts[0])) + Unprint(cptToByte, cpts[1..])
  }

  lemma {:induction false} TokenTextSplits(idToToken: seq<Text>, a: seq<int>, b: seq<int>)
    ensures TokenText(idToToken, a + b) == TokenText(idToToken, a) + TokenText(idToToken, b)
  {
    if a == [] {
      assert a + b == b;
    } else {
      assert (a + b)[1..] == a[1..] + b && (a + b)[0] == a[0];
      TokenTextSplits(idToToken, a[1..], b);
      Associative(if 0 <= a[0] < |idToToken| then idToToken[a[0]] else [],
                  TokenText(idToToken, a[1..]), TokenText(idToToken, b));
    }
  }

  lemma {:induction false} UnprintSplits(m: map<nat, byte>, a: seq<nat>, b: seq<nat>)
    ensures Unprint(m, a + b) == Unprint(m, a) + Unprint(m, b)
  {
    hide Utf8.Encode;
    if a == [] {
      assert a + b == b;
    } else {
      assert (a + b)[1..] == a[1..] + b && (a + b)[0] == a[0];
      UnprintSplits(m, a[1..], b);
      Associative(if a[0] in m then [m[a[0]]] else Utf8.Encode(a[0]), Unprint(m, a[1..]), Unprint(m, b));
    }
  }

  /** Printing and reading back restores any bytes. */
  lemma {:induction false} UnprintsPrinted(codec: Codec, bytes: Text)
    requires codec.Valid()
    ensures Unprint(codec.cptToByte, CodePoints(bytes)) == bytes
  {
    hide CodePoint;
    if bytes != [] {
      assert CodePoints(bytes)[1..] == CodePoints(bytes[1..]);
      UnprintsPrinted(codec, bytes[1..]);
      assert bytes == [bytes[0]] + bytes[1..];
    }
  }

  lemma PrintableDecodes(bytes: Text)
    ensures Utf8.Encodable(CodePoints(bytes)) && Utf8.Decode(Printable(bytes)) == CodePoints(bytes)
  {
    hide Utf8.DecodeFrom;
    hide Utf8.EncodeAll;
    forall i | 0 <= i < |bytes| ensures CodePoints(bytes)[i] < Utf8.LIMIT {
      CodePointsDiffer(bytes[i], bytes[i]);
    }
    hide CodePoints;
    Utf8.DecodeEncoded(CodePoints(bytes));
  }

  // ---- the tokenizer ----------------------------------------------------------------------------

  /** The tokens of words, one word after the other. */
  function WordTokens(words: seq<Text>, ranks: Ranks, vocab: Vocab): seq<int> {
    if words == [] then [] else Tokens(Greedy(Chars(words[0]), ranks), vocab) + WordTokens(words[1..], ranks, vocab)
  }

  class Tokenizer {
    const idToToken: seq<Text>
    const tokenToId: Vocab
    const ranks: Ranks
    const bosId: int
    const addBos: bool
    const codec: Codec
    const classes: Classes

    ghost predicate Valid()
      reads codec, codec.byteToCpt, codec.byteToStr
    {
      codec.Valid() && Sound(classes) && FirstPlaces(idToToken, tokenToId)
    }

    constructor (tokens: seq<Text>, ranks: Ranks, bosId: int, addBos: bool, classes: Classes)
      requires Sound(classes)
      ensures Valid() && this.idToToken == tokens && this.ranks == ranks && this.bosId == bosId && this.addBos == addBos
      ensures this.classes == classes
    {
      var idToToken, tokenToId := ReadTokens(tokens);
      var codec := new Codec();
      this.idToToken, this.tokenToId, this.ranks := idToToken, tokenToId, ranks;
      this.bosId, this.addBos, this.codec, this.classes := bosId, addBos, codec, classes;
    }

    predicate StartsWithBos(addSpecial: bool) {
      addSpecial && addBos && bosId >= 0
    }

    /** The ids of a text. */
    function Encoding(text: Text, addSpecial: bool): seq<int> {
      (if StartsWithBos(addSpecial) then [bosId] else [])
      + WordTokens(WordsIn(classes, text), ranks, tokenToId)
    }

    /** The text of ids. */
    function Decoding(ids: seq<int>): Text
      reads codec
    {
      Unprint(codec.cptToByte, Utf8.Decode(TokenText(idToToken, ids)))
    }

    method Encode(text: Text, addSpecial: bool) returns (out: seq<int>)
      requires Valid()
      ensures out == Encoding(text, addSpecial)
      ensures out == (if addSpecial && addBos && bosId >= 0 then [bosId] else []) + WordTokens(WordsIn(classes, text), ranks, tokenToId)
    {
      hide Chars;
      hide Tokens;
      hide WordsIn;
      hide Greedy;
      out := [];
      if addSpecial && addBos && bosId >= 0 {
        out := out + [bosId];
      }
      ghost var special := out;
      var words := Pretokenize(codec, classes, text);
      for i := 0 to |words|
        invariant out + WordTokens(words[i..], ranks, tokenToId) == special + WordTokens(words, ranks, tokenToId)
      {
        NextWordTokens(words[i..], ranks, tokenToId, out);
        assert words[i..][1..] == words[i + 1..];
        out := BpeWord(words[i], ranks, tokenToId, out);
      }
      assert words[|words|..] == [];
      assert out + [] == out;
    }

    method Decode(ids: seq<int>) returns (out: Text)
      requires Valid()
      ensures out == Decoding(ids)
    {
      hide Utf8.Encode;
      hide Utf8.Decode;
      var joined: Text := [];
      for i := 0 to |ids|
        invariant joined == TokenText(idToToken, ids[..i])
      {
        TokenTextSplits(idToToken, ids[..i], [ids[i]]);
        assert ids[..i + 1] == ids[..i] + [ids[i]];
        assert [ids[i]][1..] == [];
        if 0 <= ids[i] < |idToToken| {
          joined := joined + idToToken[ids[i]];
        }
      }
      assert ids[..|ids|] == ids;
      var cpts := Utf8.DecodeBytes(joined);
      out := [];
      for i := 0 to |cpts|
        invariant out == Unprint(codec.cptToByte, cpts[..i])
      {
        UnprintSplits(codec.cptToByte, cpts[..i], [cpts[i]]);
        assert cpts[..i + 1] == cpts[..i] + [cpts[i]];
        assert [cpts[i]][1..] == [];
        if cpts[i] in codec.cptToByte {
          out := out + [codec.cptToByte[cpts[i]]];
        } else {
          out := out + Utf8.Encode(cpts[i]);
        }
      }
      assert cpts[..|cpts|] == cpts;
    }

    /** Every piece that merging leaves of the text has a token. */
    ghost predicate Covers(text: Text) {
      AllKnown(WordsIn(classes, text), ranks, tokenToId)
    }
  }

  /** The words are the printed bytes of the stretches that the expression cuts the code points into. */
  lemma WordsInAre(k: Classes, text: Text, i: nat)
    requires i < |WordsIn(k, text)|
    ensures var cpts := Utf8.Decode(text);
      var ranges := Words(k, cpts, 0);
      && |ranges| == |WordsIn(k, text)| && ranges[i].0 + ranges[i].1 <= |cpts|
      && WordsIn(k, text)[i] == Printable(Utf8.EncodeAll(cpts[ranges[i].0..ranges[i].0 + ranges[i].1]))
  {
    hide Words;
    hide Printable;
    hide Utf8.Decode;
    hide Utf8.EncodeAll;
    RangesInside(k, Utf8.Decode(text), 0);
  }

  /** Decoding joins the strings of the known ids and reads every code point of them back to a byte if it is one's. */
  lemma DecodingIs(tokens: seq<Text>, m: map<nat, byte>, a: seq<int>, id: int, b: seq<int>, u: seq<nat>, c: nat, v: seq<nat>)
    ensures TokenText(tokens, a + [id] + b)
         == TokenText(tokens, a) + (if 0 <= id < |tokens| then tokens[id] else []) + TokenText(tokens, b)
    ensures Unprint(m, u + [c] + v) == Unprint(m, u) + (if c in m then [m[c]] else Utf8.Encode(c)) + Unprint(m, v)
    ensures TokenText(tokens, []) == [] && Unprint(m, []) == []
  {
    hide Utf8.Encode;
    TokenTextSplits(tokens, a + [id], b);
    TokenTextSplits(tokens, a, [id]);
    UnprintSplits(m, u + [c], v);
    UnprintSplits(m, u, [c]);
    assert [id][1..] == [] && [c][1..] == [];
  }

  lemma NextWordTokens(words: seq<Text>, ranks: Ranks, vocab: Vocab, out: seq<int>)
    requires words != []
    ensures out + WordTokens(words, ranks, vocab)
         == out + Tokens(Greedy(Chars(words[0]), ranks), vocab) + WordTokens(words[1..], ranks, vocab)
  {
    Associative(out, Tokens(Greedy(Chars(words[0]), ranks), vocab), WordTokens(words[1..], ranks, vocab));
  }

  ghost predicate AllKnown(words: seq<Text>, ranks: Ranks, vocab: Vocab) {
    forall i :: 0 <= i < |words| ==> Known(Greedy(Chars(words[i]), ranks), vocab)
  }

  predicate Known(pieces: seq<Text>, vocab: Vocab) {
    forall i :: 0 <= i < |pieces| ==> pieces[i] in vocab
  }

  // ---- the round trip ---------------------------------------------------------------------------

  lemma {:induction false} PiecesJoin(tokens: seq<Text>, vocab: Vocab, pieces: seq<Text>)
    requires FirstPlaces(tokens, vocab) && Known(pieces, vocab)
    ensures TokenText(tokens, Tokens(pieces, vocab)) == Concat(pieces)
  {
    if pieces != [] {
      var id := vocab[pieces[0]];
      assert Tokens(pieces, vocab) == [id] + Tokens(pieces[1..], vocab);
      assert Tokens(pieces, vocab)[1..] == Tokens(pieces[1..], vocab);
      PiecesJoin(tokens, vocab, pieces[1..]);
    }
  }

  lemma {:induction false} WordsJoin(tokens: seq<Text>, vocab: Vocab, ranks: Ranks, words: seq<Text>)
    requires FirstPlaces(tokens, vocab) && AllKnown(words, ranks, vocab)
    ensures TokenText(tokens, WordTokens(words, ranks, vocab)) == Concat(words)
  {
    hide FirstPlaces;
    hide TokenText;
    hide Greedy;
    hide Chars;
    hide Tokens;
    hide Known;
    if words == [] {
      NothingJoined(tokens);
    } else {
      var pieces := Greedy(Chars(words[0]), ranks);
      PiecesJoin(tokens, vocab, pieces);
      GreedyResult(Chars(words[0]), ranks);
      CharsConcat(words[0]);
      assert forall i :: 0 <= i < |words| - 1 ==> words[1..][i] == words[i + 1];
      WordsJoin(tokens, vocab, ranks, words[1..]);
      TokenTextSplits(tokens, Tokens(pieces, vocab), WordTokens(words[1..], ranks, vocab));
    }
  }

  lemma NothingJoined(tokens: seq<Text>)
    ensures TokenText(tokens, []) == []
  {
  }

  /** The words of a text, joined, spell all its bytes. */
  lemma {:induction false} WordsSpell(cpts: seq<nat>, ranges: seq<(nat, nat)>)
    ensures Concat(WordsOf(cpts, ranges)) == WordOf(Stretches(cpts, ranges))
  {
    hide WordOf;
    hide Stretch;
    if ranges == [] {
      NoWord();
    } else {
      assert WordsOf(cpts, ranges)[1..] == WordsOf(cpts, ranges[1..]);
      WordsSpell(cpts, ranges[1..]);
      WordOfSplits(Stretch(cpts, ranges[0]), Stretches(cpts, ranges[1..]));
    }
  }

  lemma TextSpelled(k: Classes, text: Text)
    ensures Concat(WordsIn(k, text)) == Printable(Utf8.EncodeAll(Utf8.Decode(text)))
  {
    hide Concat;
    hide Printable;
    hide Utf8.EncodeAll;
    hide Utf8.Decode;
    var cpts := Utf8.Decode(text);
    WordsSpell(cpts, Words(k, cpts, 0));
    WordsPartition(k, cpts, 0);
    assert cpts[0..] == cpts;
  }

  /** Decoding undoes encoding up to the re-encoding of the text, when no piece lacks a token. */
  lemma DecodesEncoding(t: Tokenizer, text: Text)
    requires t.Valid() && t.Covers(text)
    ensures t.Decoding(t.Encoding(text, false)) == Utf8.EncodeAll(Utf8.Decode(text))
  {
    hide TokenText;
    hide WordTokens;
    hide Printable;
    hide CodePoints;
    hide Unprint;
    hide WordsIn;
    hide Utf8.EncodeAll;
    hide Utf8.Decode;
    var words := WordsIn(t.classes, text);
    var bytes := Utf8.EncodeAll(Utf8.Decode(text));
    assert [] + WordTokens(words, t.ranks, t.tokenToId) == WordTokens(words, t.ranks, t.tokenToId);
    WordsJoin(t.idToToken, t.tokenToId, t.ranks, words);
    TextSpelled(t.classes, text);
    PrintableDecodes(bytes);
    UnprintsPrinted(t.codec, bytes);
  }

  /** When no piece lacks a token, a text comes back exactly when it is its own re-encoding; every
      valid UTF-8 text is. */
  lemma RoundTrip(t: Tokenizer, text: Text)
    requires t.Valid() && t.Covers(text)
    ensures t.Decoding(t.Encoding(text, false)) == text <==> Utf8.EncodeAll(Utf8.Decode(text)) == text
    ensures Utf8.Valid(text) ==> t.Decoding(t.Encoding(text, false)) == text
  {
    DecodesEncoding(t, text);
    Utf8.ReencodingRestores(text);
  }

  /** With the token of the beginning in front, its own text comes out in front, provided it is well
      formed. */
  lemma SpecialPrefix(t: Tokenizer, text: Text)
    requires t.Valid() && t.Covers(text) && t.StartsWithBos(true)
    requires var bos := TokenText(t.idToToken, [t.bosId]); Utf8.EncodeAll(Utf8.Decode(bos)) == bos
    ensures t.Decoding(t.Encoding(text, true)) == t.Decoding([t.bosId]) + Utf8.EncodeAll(Utf8.Decode(text))
  {
    hide TokenText;
    hide WordTokens;
    hide Printable;
    hide CodePoints;
    hide Unprint;
    hide WordsIn;
    hide Utf8.EncodeAll;
    hide Utf8.DecodeFrom;
    var bytes, words := Utf8.EncodeAll(Utf8.Decode(text)), WordsIn(t.classes, text);
    var bos := TokenText(t.idToToken, [t.bosId]);
    TokenTextSplits(t.idToToken, [t.bosId], WordTokens(words, t.ranks, t.tokenToId));
    WordsJoin(t.idToToken, t.tokenToId, t.ranks, words);
    TextSpelled(t.classes, text);
    Utf8.DecodedIsEncodable(bos, 0);
    Utf8.DecodeAfterEncoded(Utf8.Decode(bos), Printable(bytes));
    PrintableDecodes(bytes);
    UnprintSplits(t.codec.cptToByte, Utf8.Decode(bos), CodePoints(bytes));
    UnprintsPrinted(t.codec, bytes);
  }
}
