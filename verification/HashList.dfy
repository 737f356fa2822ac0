/** The `aff4:hash` scanner over a block's whitespace-separated tokens. */
module HashList {
  import opened Prelude
  import opened Digest
  import Hex

  /** What separates the digits from the datatype name. */
  const SEPARATOR: string := "\"^^aff4:"
  const PREDICATE: string := "aff4:hash"

  // ---- one term ----

  predicate IsAlphanumeric(c: char) {
    '0' <= c <= '9' || 'a' <= c <= 'z' || 'A' <= c <= 'Z'
  }

  /** The first place at or after `i` where the separator stands. */
  function FindSeparator(s: string, i: nat): (r: Option<nat>)
    requires i <= |s|
    ensures r.Some? ==> i <= r.value && r.value + |SEPARATOR| <= |s| && s[r.value..r.value + |SEPARATOR|] == SEPARATOR
    decreases |s| - i
  {
    if i + |SEPARATOR| > |s| then None
    else if s[i..i + |SEPARATOR|] == SEPARATOR then Some(i)
    else FindSeparator(s, i + 1)
  }

  /** Without the trailing characters that are not alphanumeric. */
  function TrimEnd(s: string): (r: string)
    ensures r <= s
  {
    if s == "" || IsAlphanumeric(s[|s| - 1]) then s else TrimEnd(s[..|s| - 1])
  }

  function ParseTerm(token: string): Option<StoredHash> {
    if token == "" || token[0] != '"' then None
    else
      var rest := token[1..];
      match FindSeparator(rest, 0)
      case None => None
      case Some(at) =>
        var hex, datatypeName := rest[..at], rest[at + |SEPARATOR|..];
        if hex == "" || !Hex.AllHex(hex) then None
        else
          var algorithm := TrimEnd(datatypeName);
          if algorithm == "" then None else Some(StoredHash(algorithm, Hex.Lower(hex)))
  }

  /** A written term: quoted digits, datatype name, and whatever punctuation clings to it (such as a comma). */
  datatype Term = Term(algorithm: string, hex: string, clinging: string)

  predicate Writable(t: Term) {
    && t.hex != "" && Hex.AllHex(t.hex)
    && t.algorithm != "" && IsAlphanumeric(t.algorithm[|t.algorithm| - 1])
    && forall i :: 0 <= i < |t.clinging| ==> !IsAlphanumeric(t.clinging[i])
  }

  function PrintTerm(t: Term): string {
    "\"" + t.hex + SEPARATOR + t.algorithm + t.clinging
  }

  function Meant(t: Term): StoredHash {
    StoredHash(t.algorithm, Hex.Lower(t.hex))
  }

  lemma {:induction false} SeparatorAfterHex(hex: string, tail: string, i: nat)
    requires Hex.AllHex(hex) && i <= |hex|
    ensures FindSeparator(hex + SEPARATOR + tail, i) == Some(|hex|)
    decreases |hex| - i
  {
    var s := hex + SEPARATOR + tail;
    if i == |hex| {
      assert s[i..i + |SEPARATOR|] == SEPARATOR;
    } else {
      SeparatorAfterHex(hex, tail, i + 1);
      assert s[i] == hex[i] && Hex.DigitValue(hex[i]).Some?;
      assert s[i..i + |SEPARATOR|][0] != SEPARATOR[0];
    }
  }

  lemma {:induction false} TrimClinging(name: string, clinging: string)
    requires name != "" && IsAlphanumeric(name[|name| - 1])
    requires forall i :: 0 <= i < |clinging| ==> !IsAlphanumeric(clinging[i])
    ensures TrimEnd(name + clinging) == name
  {
    var s := name + clinging;
    if clinging == "" {
      assert s == name;
    } else {
      var shorter := clinging[..|clinging| - 1];
      assert s[..|s| - 1] == name + shorter;
      TrimClinging(name, shorter);
    }
  }

  lemma TermParses(t: Term)
    requires Writable(t)
    ensures ParseTerm(PrintTerm(t)) == Some(Meant(t))
  {
    hide FindSeparator, TrimEnd, IsAlphanumeric, Hex.AllHex, Hex.Lower;
    var token := PrintTerm(t);
    var tail := t.algorithm + t.clinging;
    assert token[1..] == t.hex + SEPARATOR + tail;
    SeparatorAfterHex(t.hex, tail, 0);
    var rest := token[1..];
    assert rest[..|t.hex|] == t.hex && rest[|t.hex| + |SEPARATOR|..] == tail;
    TrimClinging(t.algorithm, t.clinging);
  }

  /** Which characters a datatype name may end in. */
  lemma AlphanumericsSpelled(c: char)
    ensures IsAlphanumeric(c) <==>
            || c in "0123456789"
            || c in "abcdefghijklmnopqrstuvwxyz"
            || c in "ABCDEFGHIJKLMNOPQRSTUVWXYZ"
  {
    var digits, small, capitals := "0123456789", "abcdefghijklmnopqrstuvwxyz", "ABCDEFGHIJKLMNOPQRSTUVWXYZ";
    assert forall i :: 0 <= i < 10 ==> digits[i] as int == 48 + i;
    assert forall i :: 0 <= i < 26 ==> small[i] as int == 97 + i;
    assert forall i :: 0 <= i < 26 ==> capitals[i] as int == 65 + i;
    var code := c as int;
    assert 48 <= code < 58 ==> digits[code - 48] == c;
    assert 97 <= code < 123 ==> small[code - 97] == c;
    assert 65 <= code < 91 ==> capitals[code - 65] == c;
  }

  /** Terms as they stand in metadata: any digits under the name of any algorithm this build has, in any case, alone or
      with a comma attached, give back the name as written and the digits in lower case. */
  lemma TermSpelled(name: string, hex: string, tail: string)
    requires ForAlgorithm(name).Some? && hex != "" && Hex.AllHex(hex) && (tail == "" || tail == ",")
    ensures ParseTerm("\"" + hex + "\"^^aff4:" + name + tail) == Some(StoredHash(name, Hex.Lower(hex)))
  {
    hide ParseTerm, Hex.AllHex, Hex.Lower;
    RecognisedIff(name, ForAlgorithm(name).value);
    var last := |name| - 1;
    assert EitherCase(name[last], NameOf(ForAlgorithm(name).value)[last]);
    TermParses(Term(name, hex, tail));
  }

  lemma {:induction false} TrimSplits(s: string) returns (clinging: string)
    ensures s == TrimEnd(s) + clinging
    ensures TrimEnd(s) != "" ==> IsAlphanumeric(TrimEnd(s)[|TrimEnd(s)| - 1])
    ensures forall i :: 0 <= i < |clinging| ==> !IsAlphanumeric(clinging[i])
  {
    hide IsAlphanumeric;
    if s != "" && !IsAlphanumeric(s[|s| - 1]) {
      var t := s[..|s| - 1];
      var shorter := TrimSplits(t);
      clinging := shorter + [s[|s| - 1]];
      assert s == t + [s[|s| - 1]];
    } else {
      clinging := "";
      assert s == s + "";
    }
  }

  /** A token is accepted exactly when it is a written term, and then means what was written. */
  lemma TermIff(token: string)
    ensures ParseTerm(token).Some? <==> exists t: Term :: Writable(t) && PrintTerm(t) == token
    ensures forall t: Term :: Writable(t) && PrintTerm(t) == token ==> ParseTerm(token) == Some(Meant(t))
  {
    forall t: Term | Writable(t) && PrintTerm(t) == token
      ensures ParseTerm(token) == Some(Meant(t))
    {
      TermParses(t);
    }
    if ParseTerm(token).Some? {
      var t := Written(token);
    }
  }

  lemma Written(token: string) returns (t: Term)
    requires ParseTerm(token).Some?
    ensures Writable(t) && PrintTerm(t) == token
  {
    var rest := token[1..];
    var at := FindSeparator(rest, 0).value;
    hide FindSeparator, TrimEnd, Hex.AllHex, IsAlphanumeric, Hex.Lower;
    var name := rest[at + |SEPARATOR|..];
    var clinging := TrimSplits(name);
    t := Term(TrimEnd(name), rest[..at], clinging);
    Rejoin(token, at, TrimEnd(name), clinging);
  }

  lemma Rejoin(token: string, at: nat, algorithm: string, clinging: string)
    requires token != "" && token[0] == '"' && at + |SEPARATOR| <= |token| - 1
    requires token[1..][at..at + |SEPARATOR|] == SEPARATOR
    requires token[1..][at + |SEPARATOR|..] == algorithm + clinging
    ensures "\"" + token[1..][..at] + SEPARATOR + algorithm + clinging == token
  {
    var rest := token[1..];
    Glue(rest, at, SEPARATOR, algorithm + clinging);
    Regroup("\"", rest[..at], SEPARATOR, algorithm, clinging);
    assert token == "\"" + rest;
  }

  lemma Glue(s: string, at: nat, middle: string, tail: string)
    requires at + |middle| <= |s| && s[at..at + |middle|] == middle && s[at + |middle|..] == tail
    ensures s == s[..at] + middle + tail
  {
  }

  lemma Regroup(a: string, b: string, c: string, d: string, e: string)
    ensures a + b + c + d + e == a + (b + c + (d + e))
  {
  }

  // ---- the token scan ----

  /** The terms at the front, skipping commas, and the tokens left when something else turns up. */
  function Terms(tokens: seq<string>): (r: (seq<StoredHash>, seq<string>))
    ensures |r.1| <= |tokens|
  {
    if tokens == [] then ([], [])
    else if tokens[0] == "," then Terms(tokens[1..])
    else
      match ParseTerm(tokens[0])
      case None => ([], tokens)
      case Some(h) => var r := Terms(tokens[1..]); ([h] + r.0, r.1)
  }

  function Hashes(tokens: seq<string>): seq<StoredHash>
    decreases |tokens|
  {
    if tokens == [] then []
    else if tokens[0] != PREDICATE then Hashes(tokens[1..])
    else var r := Terms(tokens[1..]); r.0 + Hashes(r.1)
  }

  /** `parse_image_hashes`, index by index. */
  method ParseImageHashes(tokens: seq<string>) returns (out: seq<StoredHash>)
    ensures out == Hashes(tokens)
  {
    hide ParseTerm, Hashes, Terms;
    out := [];
    var i := 0;
    assert tokens[0..] == tokens && [] + Hashes(tokens) == Hashes(tokens);
    while i < |tokens|
      invariant 0 <= i <= |tokens|
      invariant Hashes(tokens) == out + Hashes(tokens[i..])
    {
      HashesStep(tokens, i);
      if tokens[i] != PREDICATE {
        i := i + 1;
        continue;
      }
      var j := i + 1;
      ghost var before := out;
      ghost var found := Terms(tokens[i + 1..]);
      assert before + (found.0 + Hashes(found.1)) == before + found.0 + Hashes(found.1);
      while j < |tokens|
        invariant i < j <= |tokens|
        invariant before + found.0 == out + Terms(tokens[j..]).0 && found.1 == Terms(tokens[j..]).1
        decreases |tokens| - j
      {
        TermsStep(tokens, j);
        if tokens[j] == "," {
          j := j + 1;
        } else {
          var h := ParseTerm(tokens[j]);
          if h.None? {
            break;
          }
          assert out + ([h.value] + Terms(tokens[j + 1..]).0) == out + [h.value] + Terms(tokens[j + 1..]).0;
          out := out + [h.value];
          j := j + 1;
        }
      }
      TermsEnd(tokens, j);
      assert out + [] == out;
      i := Max(j, i + 1);
    }
    HashesEnd();
    assert tokens[i..] == [] && out + [] == out;
  }

  lemma HashesStep(tokens: seq<string>, i: nat)
    requires i < |tokens|
    ensures Hashes(tokens[i..]) ==
            if tokens[i] != PREDICATE then Hashes(tokens[i + 1..])
            else Terms(tokens[i + 1..]).0 + Hashes(Terms(tokens[i + 1..]).1)
  {
    hide ParseTerm;
    assert tokens[i..][1..] == tokens[i + 1..];
  }

  lemma HashesEnd()
    ensures Hashes([]) == []
  {
  }

  lemma TermsStep(tokens: seq<string>, j: nat)
    requires j < |tokens|
    ensures Terms(tokens[j..]) ==
            if tokens[j] == "," then Terms(tokens[j + 1..])
            else match ParseTerm(tokens[j])
                 case None => ([], tokens[j..])
                 case Some(h) => ([h] + Terms(tokens[j + 1..]).0, Terms(tokens[j + 1..]).1)
  {
    hide ParseTerm;
    assert tokens[j..][1..] == tokens[j + 1..];
  }

  lemma TermsEnd(tokens: seq<string>, j: nat)
    requires j <= |tokens| && (j < |tokens| ==> tokens[j] != "," && ParseTerm(tokens[j]).None?)
    ensures Terms(tokens[j..]) == ([], tokens[j..])
  {
    hide ParseTerm;
  }

  // ---- printing a block ----

  /** A term in a list, with or without a comma token after it. */
  datatype Item = Item(term: Term, comma: bool)

  /** A stretch of a block: a list of hashes under its predicate, or other tokens. */
  datatype Part = HashPart(items: seq<Item>) | OtherPart(tokens: seq<string>)

  function PrintItem(item: Item): seq<string> {
    if item.comma then [PrintTerm(item.term), ","] else [PrintTerm(item.term)]
  }

  function PrintItems(items: seq<Item>): seq<string> {
    if items == [] then [] else PrintItem(items[0]) + PrintItems(items[1..])
  }

  function Print(parts: seq<Part>): seq<string> {
    if parts == [] then []
    else
      match parts[0]
      case HashPart(items) => [PREDICATE] + PrintItems(items) + Print(parts[1..])
      case OtherPart(tokens) => tokens + Print(parts[1..])
  }

  function MeantItems(items: seq<Item>): seq<StoredHash> {
    if items == [] then [] else [Meant(items[0].term)] + MeantItems(items[1..])
  }

  function MeantParts(parts: seq<Part>): seq<StoredHash> {
    if parts == [] then []
    else
      match parts[0]
      case HashPart(items) => MeantItems(items) + MeantParts(parts[1..])
      case OtherPart(_) => MeantParts(parts[1..])
  }

  /** A token that ends a list of hashes: neither a comma nor a term. */
  predicate Stops(tokens: seq<string>) {
    tokens == [] || (tokens[0] != "," && ParseTerm(tokens[0]).None?)
  }

  /** Terms are writable, other tokens are not the predicate itself, and what follows a list ends it. */
  predicate Printable(parts: seq<Part>) {
    parts == [] ||
    (Printable(parts[1..]) &&
     match parts[0]
     case HashPart(items) => (forall i :: 0 <= i < |items| ==> Writable(items[i].term)) && Stops(Print(parts[1..]))
     case OtherPart(tokens) => PREDICATE !in tokens)
  }

  lemma TermIsNoComma(t: Term)
    ensures PrintTerm(t) != ","
  {
    assert PrintTerm(t)[0] == '"';
  }

  lemma ItemScan(item: Item, tail: seq<string>)
    requires Writable(item.term)
    ensures Terms(PrintItem(item) + tail) == ([Meant(item.term)] + Terms(tail).0, Terms(tail).1)
  {
    hide ParseTerm, PrintTerm, Writable, Meant;
    TermParses(item.term);
    TermIsNoComma(item.term);
    var all := PrintItem(item) + tail;
    assert all[0] == PrintTerm(item.term);
    if item.comma {
      assert all[1..] == [","] + tail && ([","] + tail)[1..] == tail;
    } else {
      assert all[1..] == tail;
    }
  }

  lemma {:induction false} ItemsScan(items: seq<Item>, rest: seq<string>)
    requires (forall i :: 0 <= i < |items| ==> Writable(items[i].term)) && Stops(rest)
    ensures Terms(PrintItems(items) + rest) == (MeantItems(items), rest)
  {
    hide ParseTerm, PrintItem, Writable, Meant;
    if items == [] {
      assert PrintItems(items) + rest == rest;
    } else {
      assert forall i :: 0 <= i < |items[1..]| ==> items[1..][i] == items[i + 1];
      hide Terms, Stops;
      ItemsScan(items[1..], rest);
      ItemScan(items[0], PrintItems(items[1..]) + rest);
      assert PrintItems(items) + rest == PrintItem(items[0]) + (PrintItems(items[1..]) + rest);
    }
  }

  lemma {:induction false} OthersSkipped(tokens: seq<string>, rest: seq<string>)
    requires PREDICATE !in tokens
    ensures Hashes(tokens + rest) == Hashes(rest)
  {
    hide ParseTerm;
    if tokens == [] {
      assert tokens + rest == rest;
    } else {
      assert (tokens + rest)[1..] == tokens[1..] + rest;
      OthersSkipped(tokens[1..], rest);
    }
  }

  /** Print then scan: every list under an `aff4:hash` predicate comes back, in order, digits in lower case, whatever
      the commas and whatever other predicates (with hash-like values of their own) stand between. */
  lemma {:induction false} PrintScan(parts: seq<Part>)
    requires Printable(parts)
    ensures Hashes(Print(parts)) == MeantParts(parts)
  {
    hide ParseTerm, PrintTerm, Writable, Terms, PrintItems, MeantItems;
    if parts != [] {
      var rest := Print(parts[1..]);
      PrintScan(parts[1..]);
      match parts[0]
      case HashPart(items) =>
        ItemsScan(items, rest);
        PredicateStep(PrintItems(items) + rest);
        assert Print(parts) == [PREDICATE] + (PrintItems(items) + rest);
      case OtherPart(tokens) =>
        OthersSkipped(tokens, rest);
    }
  }

  lemma PredicateStep(tail: seq<string>)
    ensures Hashes([PREDICATE] + tail) == Terms(tail).0 + Hashes(Terms(tail).1)
  {
    hide ParseTerm, Terms;
    assert ([PREDICATE] + tail)[1..] == tail;
  }

  /** A block as it stands in metadata, with four digests. */
  function SampleBlock(stored: string, first: string, second: string, third: string): seq<string> {
    ["<aff4://image>", "aff4:imageStreamHash", "\"" + stored + "\"^^aff4:SHA1", ";",
     "aff4:hash", "\"" + first + "\"^^aff4:MD5,", "\"" + second + "\"^^aff4:SHA1", ",",
     "\"" + third + "\"^^aff4:Blake2b", ";", "aff4:imageStreamIndexHash", "\"00\"^^aff4:MD5", "."]
  }

  /** What hangs on `aff4:imageStreamHash` is passed over, what hangs on `aff4:hash` is collected up to the
      semicolon. */
  lemma BlockScan(stored: string, first: string, second: string, third: string)
    requires first != "" && second != "" && third != ""
    requires Hex.AllHex(first) && Hex.AllHex(second) && Hex.AllHex(third)
    ensures Hashes(SampleBlock(stored, first, second, third))
            == [StoredHash("MD5", Hex.Lower(first)), StoredHash("SHA1", Hex.Lower(second)),
                StoredHash("Blake2b", Hex.Lower(third))]
  {
    hide Hex.AllHex, Hex.Lower, Hashes, Print, MeantParts, ParseTerm;
    var md5, sha1, blake := Term("MD5", first, ","), Term("SHA1", second, ""), Term("Blake2b", third, "");
    var before := ["<aff4://image>", "aff4:imageStreamHash", "\"" + stored + "\"^^aff4:SHA1", ";"];
    var list := [Item(md5, false), Item(sha1, true), Item(blake, false)];
    var after := [";", "aff4:imageStreamIndexHash", "\"00\"^^aff4:MD5", "."];
    assert PREDICATE !in before && PREDICATE !in after;
    SemicolonStops(after);
    ListBetween(before, list, after);
    ThreeItems(list[0], list[1], list[2]);
    var tokens := ["aff4:hash", "\"" + first + "\"^^aff4:MD5,", "\"" + second + "\"^^aff4:SHA1", ",",
                   "\"" + third + "\"^^aff4:Blake2b"];
    assert PrintTerm(md5) == "\"" + first + "\"^^aff4:MD5,";
    assert PrintTerm(sha1) == "\"" + second + "\"^^aff4:SHA1";
    assert PrintTerm(blake) == "\"" + third + "\"^^aff4:Blake2b";
    assert [PREDICATE] + PrintItems(list) == tokens;
    assert before + (tokens + after) == SampleBlock(stored, first, second, third);
  }

  lemma SemicolonStops(tokens: seq<string>)
    requires tokens != [] && tokens[0] == ";"
    ensures Stops(tokens)
  {
  }

  lemma ThreeItems(a: Item, b: Item, c: Item)
    ensures PrintItems([a, b, c]) == PrintItem(a) + PrintItem(b) + PrintItem(c)
    ensures MeantItems([a, b, c]) == [Meant(a.term), Meant(b.term), Meant(c.term)]
  {
    hide PrintItem, Meant;
    var items := [a, b, c];
    assert items[1..] == [b, c] && [b, c][1..] == [c] && [c][1..] == [];
    assert PrintItems([c]) == PrintItem(c) + PrintItems([]) == PrintItem(c);
    assert PrintItems([b, c]) == PrintItem(b) + PrintItem(c);
    assert MeantItems([c]) == [Meant(c.term)] + MeantItems([]) == [Meant(c.term)];
    assert MeantItems([b, c]) == [Meant(b.term)] + [Meant(c.term)];
  }

  /** One list of hashes among other tokens. */
  lemma ListBetween(before: seq<string>, list: seq<Item>, after: seq<string>)
    requires PREDICATE !in before && PREDICATE !in after && Stops(after)
    requires forall i :: 0 <= i < |list| ==> Writable(list[i].term)
    ensures Hashes(before + ([PREDICATE] + PrintItems(list) + after)) == MeantItems(list)
  {
    hide ParseTerm, Terms, PrintItems, MeantItems, Writable, Hashes;
    OthersSkipped(before, [PREDICATE] + PrintItems(list) + after);
    assert [PREDICATE] + PrintItems(list) + after == [PREDICATE] + (PrintItems(list) + after);
    PredicateStep(PrintItems(list) + after);
    ItemsScan(list, after);
    OthersSkipped(after, []);
    HashesEnd();
    assert after + [] == after && MeantItems(list) + [] == MeantItems(list);
  }

  /** Every term a block declares, in order. */
  function TermsOf(parts: seq<Part>): seq<Term> {
    if parts == [] then []
    else
      match parts[0]
      case HashPart(items) => seq(|items|, i requires 0 <= i < |items| => items[i].term) + TermsOf(parts[1..])
      case OtherPart(_) => TermsOf(parts[1..])
  }

  lemma {:induction false} MeantItemsAre(items: seq<Item>)
    ensures |MeantItems(items)| == |items|
    ensures forall i :: 0 <= i < |items| ==> MeantItems(items)[i] == Meant(items[i].term)
  {
    hide Meant;
    if items != [] {
      MeantItemsAre(items[1..]);
      assert forall i :: 1 <= i < |items| ==> items[i] == items[1..][i - 1];
    }
  }

  lemma {:induction false} MeantIsTerms(parts: seq<Part>)
    requires Printable(parts)
    ensures |MeantParts(parts)| == |TermsOf(parts)|
    ensures forall i :: 0 <= i < |TermsOf(parts)| ==>
              Writable(TermsOf(parts)[i]) && MeantParts(parts)[i] == Meant(TermsOf(parts)[i])
  {
    hide Meant, Writable, Print;
    if parts != [] {
      MeantIsTerms(parts[1..]);
      if parts[0].HashPart? {
        MeantItemsAre(parts[0].items);
      }
    }
  }
}
