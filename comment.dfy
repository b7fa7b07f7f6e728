/**
 * The marker comment syntax shared by polarify/polarify.py and ads/script.py
 * (both files carry identical copies of `parse_comment` and
 * `render_start_tag`): an ordered string dictionary, the parser of
 * `<!-- POLAR k=v ... -->` tags, the canonical re-emission of a start tag and
 * the end tag `<!-- POLAR-END id=<id> -->`.
 */
module Comment {
  import opened Text

  /**
   * A Python `dict[str, str]`: `order` lists the keys in insertion order,
   * `values` holds the current value of each key.
   */
  datatype Dict = Dict(order: seq<string>, values: map<string, string>)

  predicate Distinct(ks: seq<string>) {
    forall i, j :: 0 <= i < j < |ks| ==> ks[i] != ks[j]
  }

  predicate Valid(d: Dict) {
    && Distinct(d.order)
    && (forall k :: k in d.values ==> k in d.order)
    && (forall k :: k in d.order ==> k in d.values)
  }

  const Empty: Dict := Dict([], map[])

  /**
   * `d[k] = v`: a new key goes to the end of the insertion order, an existing
   * key keeps its position and gets the new value.
   */
  function Put(d: Dict, k: string, v: string): (r: Dict)
    requires Valid(d)
    ensures Valid(r)
    ensures r.values == d.values[k := v]
    ensures k in d.values ==> r.order == d.order
    ensures k !in d.values ==> r.order == d.order + [k]
  {
    if k in d.values then Dict(d.order, d.values[k := v])
    else Dict(d.order + [k], d.values[k := v])
  }

  /** The words `parse_comment` skips. */
  const Literals: seq<string> := ["<!--", "POLAR", "-->"]

  /** `k, v = word.split("=")` succeeds: the word holds exactly one `=`. */
  predicate IsPair(w: string) {
    |Split(w, '=')| == 2
  }

  /** No literal word holds `=`, so a `key=value` word is never skipped. */
  lemma PairNotLiteral(w: string)
    requires '=' in w
    ensures w !in Literals
  {
    assert '=' !in "<!--" && '=' !in "POLAR" && '=' !in "-->";
  }

  /** A word `parse_comment` accepts: a skipped literal or a `key=value` pair. */
  predicate WellFormedWord(w: string) {
    w in Literals || IsPair(w)
  }

  datatype Parsed = Parsed(args: Dict) | Malformed(word: string)

  /** The loop of `parse_comment` over the words still to be read. */
  function ParseWords(words: seq<string>, acc: Dict): (r: Parsed)
    requires Valid(acc)
    ensures r.Parsed? ==> Valid(r.args)
    decreases |words|
  {
    if words == [] then Parsed(acc)
    else if words[0] in Literals then ParseWords(words[1..], acc)
    else
      var kv := Split(words[0], '=');
      if |kv| != 2 then Malformed(words[0])
      else ParseWords(words[1..], Put(acc, kv[0], kv[1]))
  }

  /**
   * The loop succeeds exactly when every word is a literal or a pair, and
   * otherwise names a word that is neither.
   */
  lemma {:induction false} ParseWordsSucceedsIff(words: seq<string>, acc: Dict)
    requires Valid(acc)
    ensures ParseWords(words, acc).Parsed? <==> forall w :: w in words ==> WellFormedWord(w)
    ensures ParseWords(words, acc).Malformed? ==>
      ParseWords(words, acc).word in words && !WellFormedWord(ParseWords(words, acc).word)
    decreases |words|
  {
    if words != [] {
      assert words[0] in words;
      assert forall w :: w in words <==> w == words[0] || w in words[1..];
      if words[0] in Literals {
        ParseWordsSucceedsIff(words[1..], acc);
      } else {
        var kv := Split(words[0], '=');
        if |kv| == 2 {
          ParseWordsSucceedsIff(words[1..], Put(acc, kv[0], kv[1]));
        }
      }
    }
  }

  /**
   * `parse_comment`: split on single spaces, skip the three literal words,
   * split every other word on `=` into exactly a key and a value.
   */
  function ParseComment(comment: string): (r: Parsed)
    ensures r.Parsed? ==> Valid(r.args)
  {
    ParseWords(Split(comment, ' '), Empty)
  }

  /**
   * `parse_comment` raises exactly when some space-separated word is neither
   * one of the three literals nor a word with exactly one `=`, and then it
   * names such a word.
   */
  lemma ParseCommentSucceedsIff(comment: string)
    ensures ParseComment(comment).Parsed? <==> forall w :: w in Split(comment, ' ') ==> WellFormedWord(w)
    ensures ParseComment(comment).Malformed? ==>
      ParseComment(comment).word in Split(comment, ' ') && !WellFormedWord(ParseComment(comment).word)
  {
    ParseWordsSucceedsIff(Split(comment, ' '), Empty);
  }

  /** `w` is a `key=value` word whose key is `k`. */
  predicate HasKey(w: string, k: string) {
    w !in Literals && IsPair(w) && Split(w, '=')[0] == k
  }

  /**
   * Later duplicates overwrite earlier ones: the key of the `i`-th word holds
   * that word's value when no later word has the same key.
   */
  lemma {:induction false} ParseLastWins(words: seq<string>, acc: Dict, i: nat)
    requires Valid(acc) && ParseWords(words, acc).Parsed?
    requires i < |words| && words[i] !in Literals
    requires forall j :: i < j < |words| ==> !HasKey(words[j], Split(words[i], '=')[0])
    ensures IsPair(words[i])
    ensures Split(words[i], '=')[0] in ParseWords(words, acc).args.values
    ensures ParseWords(words, acc).args.values[Split(words[i], '=')[0]] == Split(words[i], '=')[1]
    decreases |words|
  {
    assert words[i] in words;
    var rest := words[1..];
    if words[0] in Literals {
      assert words[1..][i - 1] == words[i];
      forall j | i - 1 < j < |rest| ensures !HasKey(rest[j], Split(rest[i - 1], '=')[0]) {
        assert rest[j] == words[j + 1];
      }
      ParseLastWins(rest, acc, i - 1);
    } else {
      assert words[0] in words;
      var kv := Split(words[0], '=');
      var acc' := Put(acc, kv[0], kv[1]);
      if i == 0 {
        forall j | 0 <= j < |rest| ensures !HasKey(rest[j], kv[0]) {
          assert rest[j] == words[j + 1];
        }
        ParseKeepsLater(rest, acc', kv[0]);
      } else {
        assert words[1..][i - 1] == words[i];
        forall j | i - 1 < j < |rest| ensures !HasKey(rest[j], Split(rest[i - 1], '=')[0]) {
          assert rest[j] == words[j + 1];
        }
        ParseLastWins(rest, acc', i - 1);
      }
    }
  }

  /** A key no remaining word mentions keeps the value it already had. */
  lemma {:induction false} ParseKeepsLater(words: seq<string>, acc: Dict, k: string)
    requires Valid(acc) && ParseWords(words, acc).Parsed?
    requires forall j :: 0 <= j < |words| ==> !HasKey(words[j], k)
    requires k in acc.values
    ensures k in ParseWords(words, acc).args.values
    ensures ParseWords(words, acc).args.values[k] == acc.values[k]
    decreases |words|
  {
    if words != [] {
      assert words[0] in words;
      forall j | 0 <= j < |words[1..]| ensures !HasKey(words[1..][j], k) {
        assert words[1..][j] == words[j + 1];
      }
      if words[0] in Literals {
        ParseKeepsLater(words[1..], acc, k);
      } else {
        var kv := Split(words[0], '=');
        assert !HasKey(words[0], k);
        ParseKeepsLater(words[1..], Put(acc, kv[0], kv[1]), k);
      }
    }
  }

  /**
   * The last word is read after all the others: one more turn of the loop on
   * the dictionary built from the words before it; a raise on the way stays a
   * raise.
   */
  lemma {:induction false} ParseSnoc(words: seq<string>, acc: Dict)
    requires Valid(acc) && words != []
    ensures ParseWords(words, acc) ==
      match ParseWords(words[..|words| - 1], acc)
      case Malformed(x) => Malformed(x)
      case Parsed(d) => ParseWords([words[|words| - 1]], d)
    decreases |words|
  {
    var n := |words|;
    if n == 1 {
      assert words == [words[0]] && words[..0] == [];
    } else {
      var rest := words[1..];
      assert words[..n - 1][0] == words[0];
      assert words[..n - 1][1..] == rest[..|rest| - 1];
      assert rest[|rest| - 1] == words[n - 1];
      if words[0] in Literals {
        ParseSnoc(rest, acc);
      } else {
        var kv := Split(words[0], '=');
        if |kv| == 2 {
          ParseSnoc(rest, Put(acc, kv[0], kv[1]));
        }
      }
    }
  }

  /** The position of the first `key=value` word with key `k`, or -1 when there is none. */
  function FirstKey(words: seq<string>, k: string): (r: int)
    ensures -1 <= r < |words|
    ensures r >= 0 ==> HasKey(words[r], k) && forall j :: 0 <= j < r ==> !HasKey(words[j], k)
    ensures r == -1 ==> forall j :: 0 <= j < |words| ==> !HasKey(words[j], k)
    decreases |words|
  {
    if words == [] then -1
    else
      var i := FirstKey(words[..|words| - 1], k);
      if i >= 0 then i
      else if HasKey(words[|words| - 1], k) then |words| - 1
      else -1
  }

  /** The dictionary after one more word, when that word is accepted. */
  lemma ParseOneWord(d: Dict, w: string)
    requires Valid(d) && ParseWords([w], d).Parsed?
    ensures w in Literals ==> ParseWords([w], d).args == d
    ensures w !in Literals ==>
      IsPair(w) && ParseWords([w], d).args == Put(d, Split(w, '=')[0], Split(w, '=')[1])
  {
    assert [w][0] == w && [w][1..] == [];
  }

  /** A key comes out of `parse_comment` exactly when some `key=value` word carries it. */
  lemma {:induction false} ParseKeys(words: seq<string>, k: string)
    requires ParseWords(words, Empty).Parsed?
    ensures k in ParseWords(words, Empty).args.values <==> FirstKey(words, k) >= 0
    decreases |words|
  {
    if words != [] {
      var init, w := words[..|words| - 1], words[|words| - 1];
      ParseSnoc(words, Empty);
      ParseKeys(init, k);
      ParseOneWord(ParseWords(init, Empty).args, w);
    }
  }

  /**
   * One more accepted word keeps the keys listed so far in place, and at most
   * appends the key of that word, when it is new.
   */
  lemma OneWordOrder(t: Dict, w: string)
    requires Valid(t) && ParseWords([w], t).Parsed?
    ensures var t' := ParseWords([w], t).args;
      && |t.order| <= |t'.order| <= |t.order| + 1
      && t'.order[..|t.order|] == t.order
      && (|t.order| < |t'.order| ==> HasKey(w, t'.order[|t.order|]) && t'.order[|t.order|] !in t.values)
  {
    ParseOneWord(t, w);
    var t' := ParseWords([w], t).args;
    if w !in Literals {
      var kv := Split(w, '=');
      if kv[0] !in t.values {
        assert t'.order[..|t.order|] == t.order;
      }
    }
  }

  /**
   * The keys come out in the order their first words appear: a later word
   * with the same key changes the value but not the position.
   */
  lemma {:induction false} ParseOrder(words: seq<string>, i: nat, j: nat)
    requires ParseWords(words, Empty).Parsed?
    requires i < j < |ParseWords(words, Empty).args.order|
    ensures 0 <= FirstKey(words, ParseWords(words, Empty).args.order[i])
    ensures FirstKey(words, ParseWords(words, Empty).args.order[i])
      < FirstKey(words, ParseWords(words, Empty).args.order[j])
    decreases |words|
  {
    var init, w := words[..|words| - 1], words[|words| - 1];
    ParseSnoc(words, Empty);
    var t := ParseWords(init, Empty).args;
    OneWordOrder(t, w);
    var t' := ParseWords(words, Empty).args;
    var a, b := t'.order[i], t'.order[j];
    assert a == t.order[i] && a in t.values by {
      assert t'.order[..|t.order|][i] == t'.order[i];
    }
    ParseKeys(init, a);
    if j < |t.order| {
      assert t'.order[..|t.order|][j] == t'.order[j];
      ParseOrder(init, i, j);
    } else {
      ParseKeys(init, b);
    }
  }

  /** The keys `render_start_tag` places first, in this order. */
  const Reserved: seq<string> := ["type", "id", "org", "repo"]

  /** The keys of `ks` that are not reserved, in their original order. */
  function Rest(ks: seq<string>): (r: seq<string>)
    ensures forall k :: k in r <==> k in ks && k !in Reserved
    ensures Distinct(ks) ==> Distinct(r)
  {
    if ks == [] then []
    else if ks[0] in Reserved then Rest(ks[1..])
    else
      var r := [ks[0]] + Rest(ks[1..]);
      assert Distinct(ks) ==> ks[0] !in ks[1..];
      r
  }

  /** One `key=value` word of a start tag. */
  function Pair(d: Dict, k: string): string
    requires k in d.values
  {
    k + "=" + d.values[k]
  }

  function Pairs(d: Dict, ks: seq<string>): (r: seq<string>)
    requires forall k :: k in ks ==> k in d.values
    ensures |r| == |ks|
  {
    if ks == [] then [] else [Pair(d, ks[0])] + Pairs(d, ks[1..])
  }

  lemma {:induction false} PairsAt(d: Dict, ks: seq<string>, i: nat)
    requires forall k :: k in ks ==> k in d.values
    requires i < |ks|
    ensures Pairs(d, ks)[i] == Pair(d, ks[i])
  {
    if i > 0 {
      PairsAt(d, ks[1..], i - 1);
    }
  }

  lemma Uncons<T>(x: T, a: seq<T>, b: seq<T>)
    ensures ([x] + a + b)[0] == x
    ensures ([x] + a + b)[1..] == a + b
  {
  }

  /** A dictionary `render_start_tag` accepts: it holds a type and an id. */
  predicate Renderable(d: Dict) {
    Valid(d) && "type" in d.values && "id" in d.values
  }

  /** The list `p` built by `render_start_tag`, before it is joined with spaces. */
  function StartTagWords(d: Dict): (r: seq<string>)
    requires Renderable(d)
    ensures |r| >= 4 && r[0] == "<!-- POLAR" && r[|r| - 1] == "-->"
    ensures r[1] == "type=" + d.values["type"] && r[2] == "id=" + d.values["id"]
  {
    ["<!-- POLAR"] + HeadWords(d) + Pairs(d, Rest(d.order)) + ["-->"]
  }

  /** The words for `type`, `id`, and `org` and `repo` when present. */
  function HeadWords(d: Dict): seq<string>
    requires Renderable(d)
  {
    ["type=" + d.values["type"], "id=" + d.values["id"]]
    + (if "org" in d.values then ["org=" + d.values["org"]] else [])
    + (if "repo" in d.values then ["repo=" + d.values["repo"]] else [])
  }

  /** `render_start_tag`: the words above joined with single spaces. */
  function RenderStartTag(d: Dict): (r: string)
    requires Renderable(d)
    ensures |r| >= 11 && r[..10] == "<!-- POLAR" && r[10] == ' '
    ensures r[|r| - 3..] == "-->" && r[|r| - 4] == ' '
  {
    JoinFramed(HeadWords(d), Pairs(d, Rest(d.order)));
    Join(StartTagWords(d), ' ')
  }

  /** Words framed by `<!-- POLAR` and `-->` join to a text framed the same way. */
  lemma JoinFramed(h: seq<string>, p: seq<string>)
    ensures var r := Join(["<!-- POLAR"] + h + p + ["-->"], ' ');
      && |r| >= 11 && r[..10] == "<!-- POLAR" && r[10] == ' '
      && r[|r| - 3..] == "-->" && r[|r| - 4] == ' '
  {
    var mid := h + p;
    assert ["<!-- POLAR"] + h + p + ["-->"] == ["<!-- POLAR"] + (mid + ["-->"]);
    assert ["<!-- POLAR"] + h + p + ["-->"] == (["<!-- POLAR"] + mid) + ["-->"];
    JoinCons("<!-- POLAR", mid + ["-->"], ' ');
    JoinSnoc(["<!-- POLAR"] + mid, "-->", ' ');
  }

  /** The key order of a re-emitted start tag: type, id, org, repo, then the rest. */
  function CanonicalOrder(d: Dict): seq<string>
    requires Renderable(d)
  {
    Head(d) + Rest(d.order)
  }

  /** The dictionary as a re-parsed start tag lists it. */
  function Canonical(d: Dict): Dict
    requires Renderable(d)
  {
    Dict(CanonicalOrder(d), d.values)
  }

  /** The end tag `<!-- POLAR-END id=<id> -->`. */
  function EndTag(id: string): (r: string)
    ensures |r| == 22 + |id|
    ensures r[..15] == "<!-- POLAR-END "
    ensures '\n' !in id ==> '\n' !in r
  {
    "<!-- POLAR-END id=" + id + " -->"
  }

  /** No key and no value holds a space or `=`, so every `key=value` survives a re-parse. */
  predicate Clean(d: Dict) {
    forall k :: k in d.values ==> ' ' !in k && '=' !in k && ' ' !in d.values[k] && '=' !in d.values[k]
  }

  /** The reserved keys a start tag carries, in the order `render_start_tag` emits them. */
  function Head(d: Dict): seq<string>
    requires Renderable(d)
  {
    ["type", "id"]
    + (if "org" in d.values then ["org"] else [])
    + (if "repo" in d.values then ["repo"] else [])
  }

  lemma HeadIsReserved(d: Dict)
    requires Renderable(d)
    ensures Distinct(Head(d))
    ensures forall k :: k in Head(d) <==> k in Reserved && k in d.values
  {
  }

  /**
   * The re-emitted start tag lists every key exactly once: its key order is a
   * rearrangement of the dictionary's.
   */
  lemma CanonicalOrderIsPermutation(d: Dict)
    requires Renderable(d)
    ensures Distinct(CanonicalOrder(d))
    ensures forall k :: k in CanonicalOrder(d) <==> k in d.values
    ensures Valid(Canonical(d))
  {
    var head, rest := Head(d), Rest(d.order);
    var ks := CanonicalOrder(d);
    assert ks == head + rest;
    HeadIsReserved(d);
    forall i, j | 0 <= i < j < |ks| ensures ks[i] != ks[j] {
      if j < |head| {
        assert ks[i] == head[i] && ks[j] == head[j];
      } else if i < |head| {
        assert ks[i] == head[i] && head[i] in head;
        assert ks[j] == rest[j - |head|] && rest[j - |head|] in rest;
      } else {
        assert ks[i] == rest[i - |head|] && ks[j] == rest[j - |head|];
      }
    }
    forall k ensures k in ks <==> k in d.values {
      assert k in ks <==> k in head || k in rest;
    }
  }

  lemma {:induction false} PairsAppend(d: Dict, a: seq<string>, b: seq<string>)
    requires forall k :: k in a + b ==> k in d.values
    ensures Pairs(d, a + b) == Pairs(d, a) + Pairs(d, b)
  {
    if a == [] {
      assert a + b == b;
    } else {
      assert (a + b)[0] == a[0];
      assert (a + b)[1..] == a[1..] + b;
      PairsAppend(d, a[1..], b);
      Associative([Pair(d, a[0])], Pairs(d, a[1..]), Pairs(d, b));
    }
  }

  /** With clean keys and values no pair word holds a space. */
  lemma {:induction false} PairsHaveNoSpace(d: Dict, ks: seq<string>)
    requires Clean(d)
    requires forall k :: k in ks ==> k in d.values
    ensures forall x :: x in Pairs(d, ks) ==> ' ' !in x
  {
    if ks != [] {
      PairsHaveNoSpace(d, ks[1..]);
      var k := ks[0];
      assert ' ' !in k + "=" + d.values[k];
    }
  }

  /** The words `render_start_tag` writes for the reserved keys. */
  lemma HeadPairs(d: Dict)
    requires Renderable(d)
    ensures forall k :: k in Head(d) ==> k in d.values
    ensures Pairs(d, Head(d)) == HeadWords(d)
  {
    HeadIsReserved(d);
    var o := if "org" in d.values then ["org"] else [];
    var r := if "repo" in d.values then ["repo"] else [];
    assert Head(d) == ["type", "id"] + o + r;
    PairsAppend(d, ["type", "id"] + o, r);
    PairsAppend(d, ["type", "id"], o);
    assert "type" + "=" == "type=" && "id" + "=" == "id=";
    assert "org" + "=" == "org=" && "repo" + "=" == "repo=";
    assert Pairs(d, ["type", "id"]) == ["type=" + d.values["type"], "id=" + d.values["id"]] by {
      PairsAt(d, ["type", "id"], 0);
      PairsAt(d, ["type", "id"], 1);
    }
    OptionalPair(d, "org");
    OptionalPair(d, "repo");
  }

  /** The word for a key written only when present. */
  lemma OptionalPair(d: Dict, k: string)
    ensures Pairs(d, if k in d.values then [k] else [])
      == if k in d.values then [k + "=" + d.values[k]] else []
  {
    if k in d.values {
      PairsAt(d, [k], 0);
    }
  }

  /** `render_start_tag` writes the reserved keys first, then the rest, each once. */
  lemma StartTagWordsCanonical(d: Dict)
    requires Renderable(d)
    ensures forall k :: k in CanonicalOrder(d) ==> k in d.values
    ensures StartTagWords(d) == ["<!-- POLAR"] + Pairs(d, CanonicalOrder(d)) + ["-->"]
  {
    CanonicalOrderIsPermutation(d);
    HeadPairs(d);
    var rest := Rest(d.order);
    PairsAppend(d, Head(d), rest);
    Associative(["<!-- POLAR"], HeadWords(d), Pairs(d, rest));
  }

  lemma JoinCons(x: string, w: seq<string>, sep: char)
    requires w != []
    ensures Join([x] + w, sep) == x + [sep] + Join(w, sep)
  {
    assert ([x] + w)[0] == x;
    assert ([x] + w)[1..] == w;
  }

  /** Joining one more word puts a separator and that word at the end. */
  lemma {:induction false} JoinSnoc(ws: seq<string>, x: string, sep: char)
    requires ws != []
    ensures Join(ws + [x], sep) == Join(ws, sep) + [sep] + x
    decreases |ws|
  {
    if |ws| == 1 {
      assert ws + [x] == [ws[0]] + [x];
      JoinCons(ws[0], [x], sep);
    } else {
      assert ws + [x] == [ws[0]] + (ws[1..] + [x]);
      assert ws == [ws[0]] + ws[1..];
      JoinCons(ws[0], ws[1..] + [x], sep);
      JoinCons(ws[0], ws[1..], sep);
      JoinSnoc(ws[1..], x, sep);
    }
  }

  /** The opening `<!-- POLAR` of a start tag splits into the two literal words. */
  lemma SplitOpening(rest: string)
    ensures Split("<!-- POLAR" + [' '] + rest, ' ') == ["<!--", "POLAR"] + Split(rest, ' ')
  {
    assert "<!-- POLAR" + [' '] + rest == "<!--" + [' '] + "POLAR" + [' '] + rest;
    SplitTwoWords("<!--", "POLAR", rest, ' ');
  }

  /** Two separator-free words in front of a separator split off as two pieces. */
  lemma SplitTwoWords(a: string, b: string, rest: string, sep: char)
    requires sep !in a && sep !in b
    ensures Split(a + [sep] + b + [sep] + rest, sep) == [a, b] + Split(rest, sep)
  {
    Associative(a + [sep], b, [sep] + rest);
    Associative(a, [sep], b + [sep] + rest);
    Associative(b, [sep], rest);
    assert a + [sep] + b + [sep] + rest == a + [sep] + (b + [sep] + rest);
    SplitAppend(a, b + [sep] + rest, sep);
    SplitAppend(b, rest, sep);
    SplitNoSep(a, sep);
    SplitNoSep(b, sep);
  }

  /** Splitting a rendered start tag on spaces gives back its words. */
  lemma RenderedWords(d: Dict)
    requires Renderable(d) && Clean(d)
    ensures forall k :: k in CanonicalOrder(d) ==> k in d.values
    ensures Split(RenderStartTag(d), ' ') == ["<!--", "POLAR"] + Pairs(d, CanonicalOrder(d)) + ["-->"]
  {
    StartTagWordsCanonical(d);
    var ps := Pairs(d, CanonicalOrder(d));
    var w := ps + ["-->"];
    Associative(["<!-- POLAR"], ps, ["-->"]);
    JoinCons("<!-- POLAR", w, ' ');
    PairsHaveNoSpace(d, CanonicalOrder(d));
    assert forall x :: x in w ==> x in ps || x == "-->";
    SplitJoin(w, ' ');
    SplitOpening(Join(w, ' '));
    Associative(["<!--", "POLAR"], ps, ["-->"]);
  }

  /** A `key=value` word of clean parts splits on `=` into its key and value. */
  lemma SplitPair(k: string, v: string)
    requires '=' !in k && '=' !in v
    ensures Split(k + "=" + v, '=') == [k, v]
  {
    SplitAppend(k, v, '=');
    SplitNoSep(k, '=');
    SplitNoSep(v, '=');
  }

  /** Reading the first pair word of a start tag puts its key and value. */
  lemma ParsePairsStep(d: Dict, ks: seq<string>, acc: Dict)
    requires Clean(d) && Valid(acc) && ks != []
    requires forall k :: k in ks ==> k in d.values
    ensures ParseWords(Pairs(d, ks) + ["-->"], acc)
      == ParseWords(Pairs(d, ks[1..]) + ["-->"], Put(acc, ks[0], d.values[ks[0]]))
  {
    var k, v := ks[0], d.values[ks[0]];
    var words := Pairs(d, ks) + ["-->"];
    Uncons(k + "=" + v, Pairs(d, ks[1..]), ["-->"]);
    assert '=' in words[0] by {
      assert words[0][|k|] == '=';
    }
    PairNotLiteral(words[0]);
    SplitPair(k, v);
  }

  /** Parsing the pairs of distinct fresh keys appends them to the dictionary in order. */
  lemma {:induction false} ParsePairs(d: Dict, ks: seq<string>, acc: Dict)
    requires Clean(d) && Valid(acc) && Distinct(ks)
    requires forall k :: k in ks ==> k in d.values && k !in acc.values
    ensures ParseWords(Pairs(d, ks) + ["-->"], acc).Parsed?
    ensures ParseWords(Pairs(d, ks) + ["-->"], acc).args.order == acc.order + ks
    ensures forall k :: k in ParseWords(Pairs(d, ks) + ["-->"], acc).args.values <==> k in acc.values || k in ks
    ensures forall k :: k in ks ==> ParseWords(Pairs(d, ks) + ["-->"], acc).args.values[k] == d.values[k]
    ensures forall k :: k in acc.values ==> ParseWords(Pairs(d, ks) + ["-->"], acc).args.values[k] == acc.values[k]
    decreases |ks|
  {
    if ks == [] {
      assert Pairs(d, ks) + ["-->"] == ["-->"];
      assert ParseWords(["-->"], acc) == ParseWords([], acc);
    } else {
      var k := ks[0];
      var acc' := Put(acc, k, d.values[k]);
      ParsePairsStep(d, ks, acc);
      assert forall x :: x in ks <==> x == k || x in ks[1..];
      assert k !in ks[1..];
      ParsePairs(d, ks[1..], acc');
      AppendHead(acc.order, ks);
    }
  }

  /** Appending the head of `s` and then its tail appends `s`. */
  lemma AppendHead<T>(a: seq<T>, s: seq<T>)
    requires s != []
    ensures a + [s[0]] + s[1..] == a + s
  {
    assert s == [s[0]] + s[1..];
    Associative(a, [s[0]], s[1..]);
  }

  /** The literal words that open a tag are skipped. */
  lemma ParseSkipsOpening(pw: seq<string>, acc: Dict)
    requires Valid(acc)
    ensures ParseWords(["<!--", "POLAR"] + pw, acc) == ParseWords(pw, acc)
  {
    var words := ["<!--", "POLAR"] + pw;
    assert words[0] == "<!--" && words[0] in Literals;
    assert words[1..] == ["POLAR"] + pw;
    assert words[1..][0] == "POLAR" && words[1..][0] in Literals;
    assert words[1..][1..] == pw;
  }

  /** Parsing the pair words of a start tag rebuilds the canonical dictionary. */
  lemma ParseCanonicalPairs(d: Dict)
    requires Renderable(d) && Clean(d)
    ensures ParseWords(Pairs(d, CanonicalOrder(d)) + ["-->"], Empty) == Parsed(Canonical(d))
  {
    var ks := CanonicalOrder(d);
    var r := ParseWords(Pairs(d, ks) + ["-->"], Empty);
    assert r.Parsed? && r.args.order == ks && r.args.values == d.values by {
      CanonicalOrderIsPermutation(d);
      ParsePairs(d, ks, Empty);
      SameMap(r.args.values, d.values, ks);
      assert Empty.order + ks == ks;
    }
  }

  /** Two maps with the same keys, all listed in `ks`, and the same values there are equal. */
  lemma SameMap(m: map<string, string>, n: map<string, string>, ks: seq<string>)
    requires forall k :: k in m <==> k in ks
    requires forall k :: k in n <==> k in ks
    requires forall k :: k in ks ==> m[k] == n[k]
    ensures m == n
  {
  }

  /**
   * Re-parsing a rendered start tag gives back the same dictionary, with its
   * keys in the canonical order, when no key or value holds a space or `=`.
   */
  lemma StartTagRoundTrip(d: Dict)
    requires Renderable(d) && Clean(d)
    ensures ParseComment(RenderStartTag(d)) == Parsed(Canonical(d))
    ensures Canonical(d).values == d.values
  {
    RenderedWords(d);
    var ps := Pairs(d, CanonicalOrder(d));
    Associative(["<!--", "POLAR"], ps, ["-->"]);
    ParseSkipsOpening(ps + ["-->"], Empty);
    ParseCanonicalPairs(d);
  }

  lemma {:induction false} RestIdempotent(ks: seq<string>)
    ensures Rest(Rest(ks)) == Rest(ks)
  {
    if ks != [] {
      RestIdempotent(ks[1..]);
    }
  }

  lemma {:induction false} RestAppend(a: seq<string>, b: seq<string>)
    ensures Rest(a + b) == Rest(a) + Rest(b)
  {
    if a != [] {
      assert (a + b)[0] == a[0];
      assert (a + b)[1..] == a[1..] + b;
      RestAppend(a[1..], b);
      if a[0] !in Reserved {
        Associative([a[0]], Rest(a[1..]), Rest(b));
      }
    } else {
      assert a + b == b;
    }
  }

  lemma {:induction false} RestOfReserved(ks: seq<string>)
    requires forall k :: k in ks ==> k in Reserved
    ensures Rest(ks) == []
  {
    if ks != [] {
      assert ks[0] in ks;
      RestOfReserved(ks[1..]);
    }
  }

  /** The pair words depend on the values only, not on the recorded key order. */
  lemma {:induction false} PairsIgnoreOrder(d: Dict, e: Dict, ks: seq<string>)
    requires d.values == e.values
    requires forall k :: k in ks ==> k in d.values
    ensures Pairs(d, ks) == Pairs(e, ks)
  {
    if ks != [] {
      PairsIgnoreOrder(d, e, ks[1..]);
    }
  }

  /**
   * Re-emitting the start tag of a re-parsed start tag gives the same text:
   * the canonical form is a fixed point of `render_start_tag`.
   */
  lemma StartTagStable(d: Dict)
    requires Renderable(d)
    ensures Renderable(Canonical(d))
    ensures RenderStartTag(Canonical(d)) == RenderStartTag(d)
  {
    CanonicalOrderIsPermutation(d);
    HeadIsReserved(d);
    RestAppend(Head(d), Rest(d.order));
    RestIdempotent(d.order);
    RestOfReserved(Head(d));
    var c := Canonical(d);
    assert Rest(c.order) == Rest(d.order);
    PairsIgnoreOrder(c, d, Rest(d.order));
    assert HeadWords(c) == HeadWords(d);
    assert StartTagWords(c) == StartTagWords(d);
  }
}
