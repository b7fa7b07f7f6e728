/**
 * The scan-and-splice loop shared by `polarify_file` (polarify/polarify.py)
 * and `sync_file` (ads/script.py). Both scripts run the same loop and differ
 * only in how a parsed marker is turned into content, so that step is a
 * parameter here: `dispatch` maps the marker's arguments to rendered content,
 * a skip, or a failure (an exception that escapes the loop).
 *
 * The loop is described one iteration at a time by `Step`; `Run` iterates it
 * to the end of the text, and `Rewrite` adds the early return for a text
 * without any marker. `RewriteText` is the `while` loop itself, proved
 * against `Rewrite`; modules Polarify and Ads run it with their dispatch.
 */
module Engine {
  import opened Text
  import opened Comment

  /** The sentinel that opens a marker. */
  const Opening: string := "<!-- POLAR"
  /** The text that closes a start tag. */
  const Closing: string := "-->"

  /** What a script makes of a parsed marker. */
  datatype Outcome =
    | Rendered(content: string)  // splice this content between start and end tag
    | Skip                       // `continue`: leave the marker as it is
    | Fail                       // an exception escapes: nothing is written

  /** The exception that ends a run. */
  datatype Error =
    | MalformedArgument(word: string)  // `k, v = word.split("=")` raised ValueError
    | RendererFailed                   // a missing key, `int(...)` or the renderer raised

  /** The effect of a run on the file. */
  datatype FileOutcome =
    | Untouched            // returned before writing
    | Written(text: string)
    | Raised(error: Error)

  /** One iteration of the `while True` loop. */
  datatype StepResult =
    | Done                                           // no marker left: `break`
    | Advance(contents: string, cursor: nat, used: nat)
    | Abort(error: Error)

  /** `end_of_start`: the first `-->` after the first character of the marker. */
  function TagEnd(c: string, idx: nat): (r: int)
    ensures r == -1 || (idx + 1 <= r && r + 3 <= |c|)
  {
    Find(c, Closing, idx + 1)
  }

  /**
   * `comment = contents[idx : end_of_start + 3]`, whatever `end_of_start` is:
   * the marker up to and including its `-->`, or, when there is none, at most
   * two characters.
   */
  function Tag(c: string, idx: nat): (r: string)
    ensures TagEnd(c, idx) >= 0 ==> r == c[idx..TagEnd(c, idx) + 3]
    ensures TagEnd(c, idx) < 0 ==> |r| <= 2
  {
    PySlice(c, idx, TagEnd(c, idx) + 3)
  }

  /**
   * The arguments with an id: the parsed one if present, otherwise the next
   * generated one, together with the number of ids generated so far.
   */
  function WithId(args: Dict, used: nat, ids: nat -> string): (r: (Dict, nat))
    requires Valid(args)
    ensures Valid(r.0) && "id" in r.0.values
    ensures r.0.values == args.values["id" := r.0.values["id"]]
    ensures "id" in args.values ==> r == (args, used)
    ensures "id" !in args.values ==>
      r.0.values["id"] == ids(used) && r.1 == used + 1 && r.0.order == args.order + ["id"]
  {
    if "id" in args.values then (args, used)
    else (Put(args, "id", ids(used)), used + 1)
  }

  /**
   * `append_from`: just past the end tag found at or after the marker, but
   * only when it is found at an index above 0; otherwise just past the start
   * tag.
   */
  function AppendFrom(c: string, idx: nat, eos: nat, endTag: string): (r: nat)
    requires eos + 3 <= |c|
    ensures r <= |c|
    ensures r == eos + 3 || (Find(c, endTag, idx) > 0 && r == Find(c, endTag, idx) + |endTag|)
  {
    var existing := Find(c, endTag, idx);
    if existing > 0 then existing + |endTag| else eos + 3
  }

  /** The text spliced over a marker: start tag, newline, content, newline, end tag. */
  function Expansion(args: Dict, body: string): (r: string)
    requires Renderable(args)
    ensures |r| == |RenderStartTag(args)| + 1 + |body| + 1 + |EndTag(args.values["id"])|
    ensures r[..|RenderStartTag(args)|] == RenderStartTag(args)
    ensures r[|r| - |EndTag(args.values["id"])|..] == EndTag(args.values["id"])
  {
    RenderStartTag(args) + "\n" + body + "\n" + EndTag(args.values["id"])
  }

  /**
   * One iteration of the loop, from cursor `cur` with `used` ids generated
   * so far.
   */
  function Step(c: string, cur: nat, used: nat,
                dispatch: map<string, string> -> Outcome, ids: nat -> string): (r: StepResult)
    requires cur <= |c|
    ensures r.Advance? ==> r.cursor <= |r.contents| && |r.contents| - r.cursor < |c| - cur
  {
    var idx := Find(c, Opening, cur);
    if idx < 0 then Done
    else
      match ParseComment(Tag(c, idx))
      case Malformed(w) => Abort(MalformedArgument(w))
      case Parsed(parsed) =>
        UnterminatedTagRaises(c, idx);
        if "type" !in parsed.values then Advance(c, TagEnd(c, idx) + 3, used)
        else Expand(c, idx, parsed, used, dispatch, ids)
  }

  /**
   * The second half of an iteration, for a marker at `idx` that parsed to
   * `parsed` and has a type: give it an id, look for its end tag, and splice
   * or skip it as the dispatch decides.
   */
  function Expand(c: string, idx: nat, parsed: Dict, used: nat,
                  dispatch: map<string, string> -> Outcome, ids: nat -> string): (r: StepResult)
    requires Valid(parsed) && "type" in parsed.values
    requires 0 <= TagEnd(c, idx)
    ensures r.Advance? ==> r.cursor <= |r.contents| && |r.contents| - r.cursor < |c| - idx
  {
    var eos := TagEnd(c, idx);
    var (args, used') := WithId(parsed, used, ids);
    var from := AppendFrom(c, idx, eos, EndTag(args.values["id"]));
    Place(c, idx, eos, args, used', from, dispatch(args.values))
  }

  /**
   * What the loop does with a marker once its id, its end tag and
   * `append_from` are known: raise, `continue` past the start tag, or splice
   * the expansion over the text from the marker up to `from`.
   */
  function Place(c: string, idx: nat, eos: nat, args: Dict, used': nat, from: nat, outcome: Outcome): (r: StepResult)
    requires Renderable(args)
    requires idx < eos + 3 <= |c| && idx < from <= |c|
    ensures r.Advance? ==> r.cursor <= |r.contents| && |r.contents| - r.cursor < |c| - idx
  {
    match outcome
    case Fail => Abort(RendererFailed)
    case Skip => Advance(c, eos + 3, used')
    case Rendered(body) =>
      var piece := Expansion(args, body);
      Advance(c[..idx] + piece + c[from..], idx + |piece|, used')
  }

  /** The loop from cursor `cur` to its end. */
  function Run(c: string, cur: nat, used: nat,
               dispatch: map<string, string> -> Outcome, ids: nat -> string): (r: FileOutcome)
    requires cur <= |c|
    ensures !r.Untouched?
    decreases |c| - cur
  {
    match Step(c, cur, used, dispatch, ids)
    case Done => Written(c)
    case Abort(e) => Raised(e)
    case Advance(c', cur', used') => Run(c', cur', used', dispatch, ids)
  }

  /** The whole function: return at once when there is no marker, otherwise run the loop. */
  function Rewrite(c: string, dispatch: map<string, string> -> Outcome, ids: nat -> string): (r: FileOutcome)
    ensures r.Untouched? <==> !Contains(c, Opening)
  {
    if !Contains(c, Opening) then Untouched else Run(c, 0, 0, dispatch, ids)
  }

  /**
   * A marker with no `-->` after it is cut to `contents[idx:2]`, a prefix of
   * `<!` or the empty string, which `parse_comment` rejects.
   */
  lemma UnterminatedTagRaises(c: string, idx: nat)
    requires OccursAt(c, Opening, idx)
    ensures ParseComment(Tag(c, idx)).Parsed? ==> TagEnd(c, idx) >= 0
  {
    if TagEnd(c, idx) < 0 {
      var t := Tag(c, idx);
      assert t == PySlice(c, idx, 2);
      assert c[idx..idx + 10] == Opening;
      assert c[idx] == c[idx..idx + 10][0] == Opening[0] == '<';
      assert c[idx + 1] == c[idx..idx + 10][1] == Opening[1] == '!';
      assert t == [] || t == ['<'] || t == ['<', '!'] by {
        if idx == 0 { assert t == c[0..2]; }
        else if idx == 1 { assert t == c[1..2]; }
      }
      assert ' ' !in t && '=' !in t;
      SplitNoSep(t, ' ');
      SplitNoSep(t, '=');
      assert !WellFormedWord(t);
      ParseCommentSucceedsIff(t);
    }
  }

  /** A word standing between two separators is one of the pieces of a split. */
  lemma WordBetween(s: string, i: nat, w: string, sep: char)
    requires i + |w| + 1 < |s| && sep !in w
    requires s[i] == sep && s[i + 1..i + 1 + |w|] == w && s[i + 1 + |w|] == sep
    ensures w in Split(s, sep)
  {
    var j := i + 1 + |w|;
    var a, b := s[..i], s[j + 1..];
    assert s == a + [sep] + (w + [sep] + b);
    SplitAppend(a, w + [sep] + b, sep);
    SplitAppend(w, b, sep);
    SplitNoSep(w, sep);
    assert w in Split(w + [sep] + b, sep);
  }

  /**
   * When a marker parses, the end tag for any id never starts inside it: the
   * search from `idx` finds it at or after the end of the start tag, or not
   * at all. (If it started inside, either the word `POLAR-END` would be one of
   * the marker's words, which `parse_comment` rejects, or the marker's `-->`
   * would have to lie inside `<!-- POLAR-END `, which holds no `>`.)
   */
  lemma EndTagNotInsideStartTag(c: string, idx: nat, id: string)
    requires OccursAt(c, Opening, idx)
    requires ParseComment(Tag(c, idx)).Parsed?
    ensures TagEnd(c, idx) >= 0
    ensures Find(c, EndTag(id), idx) < 0 || Find(c, EndTag(id), idx) >= TagEnd(c, idx) + 3
  {
    UnterminatedTagRaises(c, idx);
    var eos := TagEnd(c, idx);
    var p := Find(c, EndTag(id), idx);
    if 0 <= p < eos + 3 {
      EndTagStart(c, p, id);
      EndTagBeforeClosing(c, eos, p);
      var s := Tag(c, idx);
      assert s == c[idx..eos + 3];
      SliceOfSlice(c, idx, eos + 3, p - idx, p - idx + 15);
      EndWordRejected(s, p - idx);
      assert false;
    }
  }

  /** A slice of a slice is a slice of the whole. */
  lemma SliceOfSlice<T>(c: seq<T>, lo: nat, hi: nat, a: nat, b: nat)
    requires lo <= hi <= |c| && a <= b <= hi - lo
    ensures c[lo..hi][a..b] == c[lo + a..lo + b]
  {
    forall i | 0 <= i < b - a ensures c[lo..hi][a..b][i] == c[lo + a..lo + b][i] {
      assert c[lo..hi][a..b][i] == c[lo..hi][a + i] == c[lo + a + i];
    }
  }

  /**
   * An end tag that starts before the end of a marker's `-->` starts early
   * enough for the marker to hold all of `<!-- POLAR-END `: `-->` cannot lie
   * inside that text, and `<` is neither `-` nor `>`.
   */
  lemma EndTagBeforeClosing(c: string, eos: nat, p: nat)
    requires p < eos + 3 <= |c| && p + 15 <= |c|
    requires c[eos..eos + 3] == Closing
    requires c[p..p + 15] == "<!-- POLAR-END "
    ensures p + 15 <= eos + 3
  {
    assert c[eos + 2] == c[eos..eos + 3][2] == '>';
    forall j | p <= j < p + 15 ensures c[j] != '>' {
      assert c[j] == c[p..p + 15][j - p];
    }
  }

  /** An end tag found at `p` begins with `<!-- POLAR-END `. */
  lemma EndTagStart(c: string, p: nat, id: string)
    requires OccursAt(c, EndTag(id), p)
    ensures p + 15 <= |c| && c[p..p + 15] == "<!-- POLAR-END "
  {
    assert c[p..p + 15] == c[p..p + |EndTag(id)|][..15];
  }

  /** A marker holding `<!-- POLAR-END ` has the word `POLAR-END`, and does not parse. */
  lemma EndWordRejected(s: string, q: nat)
    requires q + 15 <= |s| && s[q..q + 15] == "<!-- POLAR-END "
    ensures ParseComment(s).Malformed?
  {
    var t := s[q..q + 15];
    assert s[q + 4] == t[4] == ' ' && s[q + 14] == t[14] == ' ';
    assert s[q + 5..q + 14] == "POLAR-END" by {
      assert t[5..14] == "POLAR-END";
      forall i | 0 <= i < 9 ensures s[q + 5..q + 14][i] == t[5..14][i] {
        assert s[q + 5 + i] == t[5 + i];
      }
    }
    WordBetween(s, q + 4, "POLAR-END", ' ');
    BareWordRejected(s, "POLAR-END");
  }

  /** A word with no `=` that is not one of the literals makes `parse_comment` raise. */
  lemma BareWordRejected(s: string, w: string)
    requires w in Split(s, ' ') && '=' !in w && w !in Literals
    ensures ParseComment(s).Malformed?
  {
    SplitNoSep(w, '=');
    ParseCommentSucceedsIff(s);
  }

  /**
   * Because of the lemma above, the test `existing_end > 0` behaves like
   * `existing_end >= 0`: an end tag found at index 0 would start before the
   * marker, which the search from `idx` excludes, so the old expansion is
   * always replaced.
   */
  lemma AppendFromQuirkHarmless(c: string, idx: nat, id: string)
    requires OccursAt(c, Opening, idx)
    requires ParseComment(Tag(c, idx)).Parsed?
    ensures TagEnd(c, idx) >= 0
    ensures TagEnd(c, idx) + 3 <= AppendFrom(c, idx, TagEnd(c, idx), EndTag(id))
    ensures AppendFrom(c, idx, TagEnd(c, idx), EndTag(id))
      == if Find(c, EndTag(id), idx) >= 0 then Find(c, EndTag(id), idx) + |EndTag(id)| else TagEnd(c, idx) + 3
  {
    EndTagNotInsideStartTag(c, idx, id);
  }

  /** A marker with no `-->` after it ends the run with the parse error, before anything is written. */
  lemma UnterminatedAborts(c: string, cur: nat, used: nat,
                           dispatch: map<string, string> -> Outcome, ids: nat -> string)
    requires cur <= |c|
    requires Find(c, Opening, cur) >= 0 && TagEnd(c, Find(c, Opening, cur)) < 0
    ensures Step(c, cur, used, dispatch, ids).Abort?
    ensures Step(c, cur, used, dispatch, ids).error.MalformedArgument?
  {
    UnterminatedTagRaises(c, Find(c, Opening, cur));
  }

  /**
   * A marker whose arguments have no `type` is left as it is, and the scan
   * goes on just past its `-->`.
   */
  lemma UntypedMarkerSkipped(c: string, cur: nat, used: nat,
                             dispatch: map<string, string> -> Outcome, ids: nat -> string,
                             idx: nat, parsed: Dict)
    requires cur <= |c| && idx == Find(c, Opening, cur)
    requires ParseComment(Tag(c, idx)) == Parsed(parsed) && "type" !in parsed.values
    ensures cur < TagEnd(c, idx) + 3 <= |c|
    ensures Step(c, cur, used, dispatch, ids) == Advance(c, TagEnd(c, idx) + 3, used)
  {
    UnterminatedTagRaises(c, idx);
  }

  /**
   * A marker the dispatch skips is left as it is and the scan goes on just
   * past its `-->`; an id generated for it is used up all the same.
   */
  lemma SkippedMarker(c: string, cur: nat, used: nat,
                      dispatch: map<string, string> -> Outcome, ids: nat -> string,
                      idx: nat, parsed: Dict, args: Dict, used': nat)
    requires cur <= |c| && idx == Find(c, Opening, cur)
    requires ParseComment(Tag(c, idx)) == Parsed(parsed) && "type" in parsed.values
    requires (args, used') == WithId(parsed, used, ids)
    requires dispatch(args.values) == Skip
    ensures cur < TagEnd(c, idx) + 3 <= |c|
    ensures Step(c, cur, used, dispatch, ids) == Advance(c, TagEnd(c, idx) + 3, used')
  {
    UnterminatedTagRaises(c, idx);
  }

  /**
   * The splice: the text before the marker is kept, the expansion (start tag,
   * newline, content, newline, end tag) replaces everything up to
   * `AppendFrom` (see `AppendFromQuirkHarmless` for where that is), and the
   * scan resumes right after the new end tag, where the old text following
   * the replaced span begins.
   */
  lemma RenderedMarkerSpliced(c: string, cur: nat, used: nat,
                              dispatch: map<string, string> -> Outcome, ids: nat -> string,
                              idx: nat, parsed: Dict, args: Dict, used': nat, body: string)
    requires cur <= |c| && idx == Find(c, Opening, cur)
    requires ParseComment(Tag(c, idx)) == Parsed(parsed) && "type" in parsed.values
    requires (args, used') == WithId(parsed, used, ids)
    requires dispatch(args.values) == Rendered(body)
    ensures TagEnd(c, idx) >= 0
    ensures TagEnd(c, idx) + 3 <= AppendFrom(c, idx, TagEnd(c, idx), EndTag(args.values["id"]))
    ensures var from := AppendFrom(c, idx, TagEnd(c, idx), EndTag(args.values["id"]));
      var piece := Expansion(args, body);
      var r := Step(c, cur, used, dispatch, ids);
      && r == Advance(c[..idx] + piece + c[from..], idx + |piece|, used')
      && r.contents[..idx] == c[..idx]
      && r.contents[idx + |piece|..] == c[from..]
  {
    AppendFromQuirkHarmless(c, idx, args.values["id"]);
    StepRendered(c, cur, used, dispatch, ids, idx, parsed, args, used', body);
    SpliceKeeps(c, idx, Expansion(args, body), AppendFrom(c, idx, TagEnd(c, idx), EndTag(args.values["id"])));
  }

  /** `Expand` on a rendered marker, with the splice written the way the loop builds it. */
  lemma PlaceRendered(c: string, idx: nat, eos: nat, args: Dict, used': nat, from: nat, body: string)
    requires Renderable(args)
    requires idx < eos + 3 <= |c| && idx < from <= |c|
    ensures var startTag, endTag := RenderStartTag(args), EndTag(args.values["id"]);
      Place(c, idx, eos, args, used', from, Rendered(body))
        == Advance(c[..idx] + startTag + "\n" + body + "\n" + endTag + c[from..],
                   idx + |startTag| + 1 + |body| + 1 + |endTag|, used')
  {
    var startTag, endTag := RenderStartTag(args), EndTag(args.values["id"]);
    Regroup(c[..idx], startTag, "\n", body, "\n", endTag, c[from..]);
  }

  /** Regrouping the seven parts of a splice around its middle five. */
  lemma Regroup<T>(a: seq<T>, b: seq<T>, c: seq<T>, d: seq<T>, e: seq<T>, f: seq<T>, g: seq<T>)
    ensures a + b + c + d + e + f + g == a + (b + c + d + e + f) + g
  {
  }

  /** Splicing `piece` over `c[idx..from]` keeps what lies on either side. */
  lemma SpliceKeeps(c: string, idx: nat, piece: string, from: nat)
    requires idx <= from <= |c|
    ensures (c[..idx] + piece + c[from..])[..idx] == c[..idx]
    ensures (c[..idx] + piece + c[from..])[idx + |piece|..] == c[from..]
  {
    var t := c[..idx] + piece + c[from..];
    assert t[..idx] == c[..idx];
    assert t[idx + |piece|..] == c[from..];
  }

  /** The step of the lemma above, in the terms `Step` is written in. */
  lemma StepRendered(c: string, cur: nat, used: nat,
                     dispatch: map<string, string> -> Outcome, ids: nat -> string,
                     idx: nat, parsed: Dict, args: Dict, used': nat, body: string)
    requires cur <= |c| && idx == Find(c, Opening, cur)
    requires ParseComment(Tag(c, idx)) == Parsed(parsed) && "type" in parsed.values
    requires (args, used') == WithId(parsed, used, ids)
    requires dispatch(args.values) == Rendered(body)
    ensures TagEnd(c, idx) >= 0
    ensures Step(c, cur, used, dispatch, ids)
      == Advance(c[..idx] + Expansion(args, body) + c[AppendFrom(c, idx, TagEnd(c, idx), EndTag(args.values["id"]))..],
                 idx + |Expansion(args, body)|, used')
  {
    UnterminatedTagRaises(c, idx);
  }

  /** A step keeps the text before the marker it handles, and the cursor never moves back. */
  lemma StepKeepsPrefix(c: string, cur: nat, used: nat,
                        dispatch: map<string, string> -> Outcome, ids: nat -> string)
    requires cur <= |c|
    ensures Step(c, cur, used, dispatch, ids).Advance? ==>
      var idx := Find(c, Opening, cur);
      var r := Step(c, cur, used, dispatch, ids);
      && cur <= idx <= r.cursor && idx <= |r.contents| && r.contents[..idx] == c[..idx]
  {
    var idx := Find(c, Opening, cur);
    if idx >= 0 {
      match ParseComment(Tag(c, idx))
      case Malformed(_) =>
      case Parsed(parsed) =>
        UnterminatedTagRaises(c, idx);
        if "type" in parsed.values {
          var (args, used') := WithId(parsed, used, ids);
          match dispatch(args.values)
          case Fail =>
          case Skip =>
            SkippedMarker(c, cur, used, dispatch, ids, idx, parsed, args, used');
          case Rendered(body) =>
            var from := AppendFrom(c, idx, TagEnd(c, idx), EndTag(args.values["id"]));
            StepRendered(c, cur, used, dispatch, ids, idx, parsed, args, used', body);
            SpliceKeeps(c, idx, Expansion(args, body), from);
        }
    }
  }

  /** A run keeps all the text before its starting cursor. */
  lemma {:induction false} RunKeepsPrefix(c: string, cur: nat, used: nat,
                                          dispatch: map<string, string> -> Outcome, ids: nat -> string)
    requires cur <= |c|
    ensures Run(c, cur, used, dispatch, ids).Written? ==>
      cur <= |Run(c, cur, used, dispatch, ids).text| && Run(c, cur, used, dispatch, ids).text[..cur] == c[..cur]
    decreases |c| - cur
  {
    var r := Step(c, cur, used, dispatch, ids);
    if r.Advance? {
      StepKeepsPrefix(c, cur, used, dispatch, ids);
      RunAdvances(c, cur, used, dispatch, ids, r.contents, r.cursor, r.used);
      RunKeepsPrefix(r.contents, r.cursor, r.used, dispatch, ids);
      var idx := Find(c, Opening, cur);
      var t := Run(r.contents, r.cursor, r.used, dispatch, ids);
      if t.Written? {
        PrefixOfPrefix(t.text, r.contents, idx, r.cursor);
        PrefixOfPrefix(t.text, c, cur, idx);
      }
    }
  }

  /** Agreeing on a prefix means agreeing on every shorter prefix. */
  lemma PrefixOfPrefix<T>(a: seq<T>, b: seq<T>, m: nat, n: nat)
    requires m <= n <= |a| && n <= |b| && a[..n] == b[..n]
    ensures a[..m] == b[..m]
  {
    assert a[..m] == a[..n][..m];
    assert b[..m] == b[..n][..m];
  }

  /** A rewrite never changes the text before the first marker. */
  lemma RewriteKeepsTextBeforeFirstMarker(c: string, dispatch: map<string, string> -> Outcome,
                                          ids: nat -> string)
    requires Contains(c, Opening)
    ensures Rewrite(c, dispatch, ids).Written? ==>
      Find(c, Opening, 0) <= |Rewrite(c, dispatch, ids).text|
      && Rewrite(c, dispatch, ids).text[..Find(c, Opening, 0)] == c[..Find(c, Opening, 0)]
  {
    var idx := Find(c, Opening, 0);
    var r := Step(c, 0, 0, dispatch, ids);
    StepKeepsPrefix(c, 0, 0, dispatch, ids);
    if r.Advance? {
      RunAdvances(c, 0, 0, dispatch, ids, r.contents, r.cursor, r.used);
      RunKeepsPrefix(r.contents, r.cursor, r.used, dispatch, ids);
      var t := Run(r.contents, r.cursor, r.used, dispatch, ids);
      if t.Written? {
        PrefixOfPrefix(t.text, r.contents, idx, r.cursor);
      }
    }
  }

  /** With no marker at or after the cursor the loop ends and the text is written as it is. */
  lemma RunEnds(c: string, cur: nat, used: nat,
                dispatch: map<string, string> -> Outcome, ids: nat -> string)
    requires cur <= |c| && Find(c, Opening, cur) < 0
    ensures Run(c, cur, used, dispatch, ids) == Written(c)
  {
  }

  /** A step that moves on leaves the rest of the run to the new state. */
  lemma RunAdvances(c: string, cur: nat, used: nat,
                    dispatch: map<string, string> -> Outcome, ids: nat -> string,
                    c': string, cur': nat, used': nat)
    requires cur <= |c| && Step(c, cur, used, dispatch, ids) == Advance(c', cur', used')
    ensures cur' <= |c'|
    ensures Run(c, cur, used, dispatch, ids) == Run(c', cur', used', dispatch, ids)
  {
  }

  /** A marker that does not parse ends the run with the word `parse_comment` rejected. */
  lemma MalformedMarkerAborts(c: string, cur: nat, used: nat,
                              dispatch: map<string, string> -> Outcome, ids: nat -> string,
                              idx: nat, word: string)
    requires cur <= |c| && idx == Find(c, Opening, cur) && idx >= 0
    requires ParseComment(Tag(c, idx)) == Malformed(word)
    ensures Step(c, cur, used, dispatch, ids) == Abort(MalformedArgument(word))
    ensures word in Split(Tag(c, idx), ' ') && !WellFormedWord(word)
  {
    ParseCommentSucceedsIff(Tag(c, idx));
  }

  /** A marker the dispatch fails on ends the run: nothing is written. */
  lemma FailedMarkerAborts(c: string, cur: nat, used: nat,
                           dispatch: map<string, string> -> Outcome, ids: nat -> string,
                           idx: nat, parsed: Dict, args: Dict, used': nat)
    requires cur <= |c| && idx == Find(c, Opening, cur)
    requires ParseComment(Tag(c, idx)) == Parsed(parsed) && "type" in parsed.values
    requires (args, used') == WithId(parsed, used, ids)
    requires dispatch(args.values) == Fail
    ensures Step(c, cur, used, dispatch, ids) == Abort(RendererFailed)
  {
    UnterminatedTagRaises(c, idx);
  }

  /** No key and no value holds `-->`, so a start tag ends at its own `-->`. */
  predicate NoClosing(d: Dict) {
    forall k :: k in d.values ==> !Contains(k, Closing) && !Contains(d.values[k], Closing)
  }

  /** `<!-- POLAR` holds no `-->`. */
  lemma OpeningHasNoClosing(q: nat)
    ensures !OccursAt(Opening, Closing, q)
  {
    assert '>' !in Opening;
    if OccursAt(Opening, Closing, q) {
      OccursAtChar(Opening, Closing, q, 2);
    }
  }

  /** A `key=value` word whose key and value hold no `-->` holds none either. */
  lemma PairHasNoClosing(k: string, v: string, q: nat)
    requires !Contains(k, Closing) && !Contains(v, Closing)
    ensures !OccursAt(k + "=" + v, Closing, q)
  {
    assert k + "=" + v == k + ['='] + v;
    assert '=' !in Closing;
    NotContains(k, Closing);
    NotContains(v, Closing);
    if OccursAt(k + "=" + v, Closing, q) {
      OccursSplit(k, '=', v, Closing, q);
    }
  }

  /** No pair word of a dictionary without `-->` holds `-->`. */
  lemma {:induction false} PairsHaveNoClosing(d: Dict, ks: seq<string>)
    requires NoClosing(d)
    requires forall k :: k in ks ==> k in d.values
    ensures forall w, q :: w in Pairs(d, ks) ==> !OccursAt(w, Closing, q)
  {
    if ks != [] {
      PairsHaveNoClosing(d, ks[1..]);
      forall q ensures !OccursAt(Pair(d, ks[0]), Closing, q) {
        PairHasNoClosing(ks[0], d.values[ks[0]], q);
      }
    }
  }

  /** When no word holds `-->`, the words joined before a final `-->` hold no other. */
  lemma {:induction false} ClosingOnlyAtEnd(ws: seq<string>)
    requires forall w, q :: w in ws ==> !OccursAt(w, Closing, q)
    ensures forall q: nat :: q + 3 < |Join(ws + [Closing], ' ')| ==> !OccursAt(Join(ws + [Closing], ' '), Closing, q)
    decreases |ws|
  {
    if ws != [] {
      var rest := ws[1..] + [Closing];
      assert ws + [Closing] == [ws[0]] + rest;
      JoinCons(ws[0], rest, ' ');
      ClosingOnlyAtEnd(ws[1..]);
      assert ws[0] in ws;
      assert ' ' !in Closing;
      forall q: nat | q + 3 < |Join(ws + [Closing], ' ')| ensures !OccursAt(Join(ws + [Closing], ' '), Closing, q) {
        if OccursAt(Join(ws + [Closing], ' '), Closing, q) {
          OccursSplit(ws[0], ' ', Join(rest, ' '), Closing, q);
        }
      }
    }
  }

  /** `<!-- POLAR` and words without `-->`, joined before a final `-->`, hold no other `-->`. */
  lemma FramedClosing(ws: seq<string>, s: string)
    requires forall w, q :: w in ws ==> !OccursAt(w, Closing, q)
    requires s == Join([Opening] + (ws + [Closing]), ' ')
    ensures forall q: nat :: q + 3 < |s| ==> !OccursAt(s, Closing, q)
  {
    var rest := ws + [Closing];
    JoinCons(Opening, rest, ' ');
    ClosingOnlyAtEnd(ws);
    assert ' ' !in Closing;
    forall q: nat | q + 3 < |s| ensures !OccursAt(s, Closing, q) {
      if OccursAt(s, Closing, q) {
        OccursSplit(Opening, ' ', Join(rest, ' '), Closing, q);
        OpeningHasNoClosing(q);
      }
    }
  }

  /** `s` opens with `<!-- POLAR` and holds `-->` only as its last three characters. */
  predicate ClosedOnce(s: string) {
    && |s| >= 11 && OccursAt(s, Opening, 0) && OccursAt(s, Closing, |s| - 3)
    && forall q: nat :: q + 3 < |s| ==> !OccursAt(s, Closing, q)
  }

  /**
   * A start tag whose keys and values hold no `-->` opens with `<!-- POLAR`,
   * and its first `-->` is the one that closes it.
   */
  lemma StartTagClosing(d: Dict)
    requires Renderable(d) && NoClosing(d)
    ensures ClosedOnce(RenderStartTag(d))
  {
    StartTagFirstClosing(d);
  }

  /** The first `-->` of such a start tag is its last three characters. */
  lemma StartTagFirstClosing(d: Dict)
    requires Renderable(d) && NoClosing(d)
    ensures var s := RenderStartTag(d);
      forall q: nat :: q + 3 < |s| ==> !OccursAt(s, Closing, q)
  {
    var s := RenderStartTag(d);
    var ps := Pairs(d, CanonicalOrder(d));
    StartTagWordsCanonical(d);
    Associative([Opening], ps, [Closing]);
    PairsHaveNoClosing(d, CanonicalOrder(d));
    FramedClosing(ps, s);
  }

  /**
   * Run again over a marker it has just expanded, the loop finds the same
   * marker, reads its `-->` as the end of the start tag and parses back the
   * arguments, in canonical order.
   */
  lemma ReparsedMarker(pre: string, args: Dict, post: string)
    requires Renderable(args) && Clean(args) && NoClosing(args)
    ensures var s := RenderStartTag(args);
      var c := pre + s + post;
      && Find(c, Opening, |pre|) == |pre|
      && TagEnd(c, |pre|) == |pre| + |s| - 3
      && ParseComment(Tag(c, |pre|)) == Parsed(Canonical(args))
  {
    StartTagClosing(args);
    FramedTag(pre, RenderStartTag(args), post);
    StartTagRoundTrip(args);
  }

  /**
   * A text `s` that opens with `<!-- POLAR` and holds `-->` only at its end,
   * placed between `pre` and `post`, is the marker the loop finds and cuts
   * out when it searches from `|pre|`.
   */
  lemma FramedTag(pre: string, s: string, post: string)
    requires ClosedOnce(s)
    ensures var c := pre + s + post;
      && Find(c, Opening, |pre|) == |pre|
      && TagEnd(c, |pre|) == |pre| + |s| - 3
      && Tag(c, |pre|) == s
  {
    OpenAt(pre, s, post, Opening);
    TagEndAt(pre, s, post);
    Middle(pre, s, post);
  }

  /** The `-->` of such an `s` is the first one after its start. */
  lemma TagEndAt(pre: string, s: string, post: string)
    requires ClosedOnce(s)
    ensures TagEnd(pre + s + post, |pre|) == |pre| + |s| - 3
  {
    CloseAt(pre, s, post, Closing);
  }

  /**
   * Between a start tag and the end tag the loop wrote after it, the end tag
   * does not occur: not in the content, which is required not to hold it,
   * and not across either newline, which the end tag does not hold.
   */
  lemma EndTagAfterBody(head: string, body: string, id: string, tail: string, q: nat)
    requires '\n' !in id && !Contains(body, EndTag(id))
    requires |head| <= q < |head| + 1 + |body| + 1
    ensures !OccursAt(head + "\n" + body + "\n" + EndTag(id) + tail, EndTag(id), q)
  {
    var t, e := head + "\n" + body + "\n" + EndTag(id) + tail, EndTag(id);
    var nl := |head| + 1 + |body|;
    assert t[|head|] == '\n' && t[nl] == '\n';
    assert e[0] == e[..15][0] == '<';
    NotContains(body, e);
    if OccursAt(t, e, q) && |head| < q < nl {
      var i := q - |head| - 1;
      if i + |e| <= |body| {
        assert t[q..q + |e|] == body[i..i + |e|];
        assert OccursAt(body, e, i);
      } else {
        OccursAtChar(t, e, q, nl - q);
      }
    }
  }

  /**
   * Searching from the marker, the loop finds the end tag it wrote after the
   * content, once nothing before the content can hold it.
   */
  lemma ReexpandedEndTag(head: string, body: string, id: string, tail: string, lo: nat)
    requires '\n' !in id && !Contains(body, EndTag(id))
    requires lo <= |head|
    requires var c := head + "\n" + body + "\n" + EndTag(id) + tail;
      Find(c, EndTag(id), lo) < 0 || Find(c, EndTag(id), lo) >= |head|
    ensures Find(head + "\n" + body + "\n" + EndTag(id) + tail, EndTag(id), lo) == |head| + 1 + |body| + 1
  {
    var e := EndTag(id);
    var c := head + "\n" + body + "\n" + e + tail;
    var p := |head| + 1 + |body| + 1;
    OccursWithin(head + "\n" + body + "\n", e, tail, e, 0);
    FindIsFirst(c, e, lo);
    forall q: nat | |head| <= q < p ensures !OccursAt(c, e, q) {
      EndTagAfterBody(head, body, id, tail, q);
    }
  }

  /** Regrouping a splice: the start tag, then everything after it. */
  lemma AfterStartTag<T>(a: seq<T>, b: seq<T>, c: seq<T>, d: seq<T>, e: seq<T>, f: seq<T>, g: seq<T>)
    ensures a + (b + c + d + e + f) + g == a + b + (c + d + e + f + g)
    ensures a + (b + c + d + e + f) + g == (a + b) + c + d + e + f + g
  {
  }

  /** The middle of a concatenation, cut out again. */
  lemma Middle<T>(pre: seq<T>, s: seq<T>, post: seq<T>)
    ensures (pre + s + post)[|pre|..|pre| + |s|] == s
  {
    assert (pre + s + post)[|pre|..|pre| + |s|] == s;
  }

  /** Cutting out the middle of `pre + piece + rest` and putting it back gives the text. */
  lemma Resplice<T>(pre: seq<T>, piece: seq<T>, rest: seq<T>)
    ensures var c := pre + piece + rest;
      c[..|pre|] + piece + c[|pre| + |piece|..] == c
  {
    var c := pre + piece + rest;
    assert c[..|pre|] == pre && c[|pre| + |piece|..] == rest;
  }

  /**
   * Running the loop again over a marker it has just expanded reproduces the
   * text and draws no new id, as long as the renderer gives the same content,
   * no key or value holds `-->`, the id holds no newline and the content
   * does not hold the end tag. (Without these conditions a second run can
   * differ; see the README.)
   */
  lemma ExpansionIsStable(pre: string, args: Dict, body: string, rest: string, used: nat,
                          dispatch: map<string, string> -> Outcome, ids: nat -> string)
    requires Renderable(args) && Clean(args) && NoClosing(args)
    requires '\n' !in args.values["id"] && !Contains(body, EndTag(args.values["id"]))
    requires dispatch(args.values) == Rendered(body)
    ensures var c := pre + Expansion(args, body) + rest;
      Step(c, |pre|, used, dispatch, ids) == Advance(c, |pre| + |Expansion(args, body)|, used)
  {
    ExpansionReexpandable(pre, args, body, rest);
    RenderedInPlace(pre + Expansion(args, body) + rest, |pre|, used, dispatch, ids,
                    Canonical(args), body, Expansion(args, body));
  }

  /**
   * What the loop needs to reproduce a marker at `idx`: it finds the marker
   * there and parses its arguments `d`, which carry an id; the first end tag
   * with that id ends exactly where the expansion `piece` of `d` ends; and
   * the text holds `piece` there.
   */
  predicate Reexpandable(c: string, idx: nat, d: Dict, body: string, piece: string) {
    && idx <= |c| && Find(c, Opening, idx) == idx
    && ParseComment(Tag(c, idx)) == Parsed(d) && "type" in d.values && "id" in d.values
    && Renderable(d) && piece == Expansion(d, body)
    && (var p := Find(c, EndTag(d.values["id"]), idx);
        idx < p && p + |EndTag(d.values["id"])| == idx + |piece|)
    && idx + |piece| <= |c|
    && c[..idx] + piece + c[idx + |piece|..] == c
  }

  /** A marker just expanded can be reproduced. */
  lemma ExpansionReexpandable(pre: string, args: Dict, body: string, rest: string)
    requires Renderable(args) && Clean(args) && NoClosing(args)
    requires '\n' !in args.values["id"] && !Contains(body, EndTag(args.values["id"]))
    ensures Reexpandable(pre + Expansion(args, body) + rest, |pre|, Canonical(args), body, Expansion(args, body))
  {
    ExpansionFound(pre, args, body, rest);
    ExpansionCanonical(args, body);
    Resplice(pre, Expansion(args, body), rest);
  }

  /**
   * A marker that already has its id, and whose end tag ends exactly where
   * its expansion would, is replaced by that same expansion: the text stays
   * as it is and no id is drawn.
   */
  lemma RenderedInPlace(c: string, idx: nat, used: nat, dispatch: map<string, string> -> Outcome,
                        ids: nat -> string, d: Dict, body: string, piece: string)
    requires Reexpandable(c, idx, d, body, piece) && dispatch(d.values) == Rendered(body)
    ensures Step(c, idx, used, dispatch, ids) == Advance(c, idx + |piece|, used)
  {
    assert WithId(d, used, ids) == (d, used);
    RenderedMarkerSpliced(c, idx, used, dispatch, ids, idx, d, d, used, body);
    assert AppendFrom(c, idx, TagEnd(c, idx), EndTag(d.values["id"])) == idx + |piece|;
  }



  /** The canonical arguments expand to the same text. */
  lemma ExpansionCanonical(args: Dict, body: string)
    requires Renderable(args)
    ensures Renderable(Canonical(args)) && Expansion(Canonical(args), body) == Expansion(args, body)
  {
    StartTagStable(args);
  }

  /**
   * In the text just written over a marker, the loop finds that marker's
   * start tag, its `-->` and its arguments again, and the first end tag with
   * its id is the one written after the content.
   */
  lemma ExpansionFound(pre: string, args: Dict, body: string, rest: string)
    requires Renderable(args) && Clean(args) && NoClosing(args)
    requires '\n' !in args.values["id"] && !Contains(body, EndTag(args.values["id"]))
    ensures var s, e := RenderStartTag(args), EndTag(args.values["id"]);
      var c := pre + Expansion(args, body) + rest;
      && Find(c, Opening, |pre|) == |pre|
      && TagEnd(c, |pre|) == |pre| + |s| - 3
      && ParseComment(Tag(c, |pre|)) == Parsed(Canonical(args))
      && Find(c, e, |pre|) == |pre| + |s| + 1 + |body| + 1
    ensures Canonical(args).values == args.values
  {
    StartTagClosing(args);
    StartTagRoundTrip(args);
    MarkerFound(pre, RenderStartTag(args), body, args.values["id"], rest);
  }

  /**
   * A start tag `s` that parses, opens with `<!-- POLAR` and holds `-->` only
   * at its end, followed by a newline, content without the end tag, a newline
   * and the end tag: searching from the start of `s`, the loop finds `s` as
   * the marker, and the end tag after the content as the first one.
   */
  lemma MarkerFound(pre: string, s: string, body: string, id: string, rest: string)
    requires ClosedOnce(s)
    requires ParseComment(s).Parsed?
    requires '\n' !in id && !Contains(body, EndTag(id))
    ensures var c := pre + (s + "\n" + body + "\n" + EndTag(id)) + rest;
      && Find(c, Opening, |pre|) == |pre|
      && TagEnd(c, |pre|) == |pre| + |s| - 3
      && Tag(c, |pre|) == s
      && Find(c, EndTag(id), |pre|) == |pre| + |s| + 1 + |body| + 1
  {
    var e := EndTag(id);
    var c := pre + (s + "\n" + body + "\n" + e) + rest;
    var post := "\n" + body + "\n" + e + rest;
    AfterStartTag(pre, s, "\n", body, "\n", e, rest);
    FramedTag(pre, s, post);
    EndTagNotInsideStartTag(c, |pre|, id);
    ReexpandedEndTag(pre + s, body, id, rest, |pre|);
  }

  /**
   * The body of the `while True` loop of `polarify_file` and `sync_file`:
   * from cursor `nextStart`, find the next marker and expand it, skip it, or
   * give up.
   */
  method ExpandNext(c: string, nextStart: nat, used: nat,
                    dispatch: map<string, string> -> Outcome, ids: nat -> string)
    returns (r: StepResult)
    requires nextStart <= |c|
    ensures r == Step(c, nextStart, used, dispatch, ids)
  {
    var idx := Find(c, Opening, nextStart);
    if idx < 0 {
      return Done;
    }
    var endOfStart := Find(c, Closing, idx + 1);
    var comment := PySlice(c, idx, endOfStart + 3);
    assert comment == Tag(c, idx);
    var parsed := ParseComment(comment);
    if parsed.Malformed? {
      MalformedMarkerAborts(c, nextStart, used, dispatch, ids, idx, parsed.word);
      return Abort(MalformedArgument(parsed.word));
    }
    UnterminatedTagRaises(c, idx);
    var args := parsed.args;
    if "type" !in args.values {
      return Advance(c, endOfStart + 3, used);
    }
    r := ExpandMarker(c, idx, args, used, dispatch, ids);
  }

  /** The part of the loop body that `Expand` describes. */
  method ExpandMarker(c: string, idx: nat, parsed: Dict, used: nat,
                      dispatch: map<string, string> -> Outcome, ids: nat -> string)
    returns (r: StepResult)
    requires Valid(parsed) && "type" in parsed.values
    requires 0 <= TagEnd(c, idx)
    ensures r == Expand(c, idx, parsed, used, dispatch, ids)
  {
    var endOfStart := Find(c, Closing, idx + 1);
    var args := parsed;
    var used' := used;
    if "id" !in args.values {
      args := Put(args, "id", ids(used));
      used' := used + 1;
    }
    assert (args, used') == WithId(parsed, used, ids);
    var endTag := EndTag(args.values["id"]);
    var existingEnd := Find(c, endTag, idx);
    var appendFrom := if existingEnd > 0 then existingEnd + |endTag| else endOfStart + 3;
    assert appendFrom == AppendFrom(c, idx, endOfStart, endTag);
    r := PlaceMarker(c, idx, endOfStart, args, used', appendFrom, dispatch(args.values));
  }

  /** The rest of the loop body: act on the renderer's outcome. */
  method PlaceMarker(c: string, idx: nat, endOfStart: nat, args: Dict, used': nat, appendFrom: nat,
                     outcome: Outcome)
    returns (r: StepResult)
    requires Renderable(args)
    requires idx < endOfStart + 3 <= |c| && idx < appendFrom <= |c|
    ensures r == Place(c, idx, endOfStart, args, used', appendFrom, outcome)
  {
    var rendered := "";
    match outcome
    case Fail =>
      return Abort(RendererFailed);
    case Skip =>
      return Advance(c, endOfStart + 3, used');
    case Rendered(content) =>
      rendered := content;
    var startTag := RenderStartTag(args);
    var endTag := EndTag(args.values["id"]);
    var contents' := c[..idx] + startTag + "\n" + rendered + "\n" + endTag + c[appendFrom..];
    PlaceRendered(c, idx, endOfStart, args, used', appendFrom, rendered);
    return Advance(contents', idx + |startTag| + 1 + |rendered| + 1 + |endTag|, used');
  }

  /**
   * The scan-and-splice loop without the file I/O: the text read from the
   * file goes in, and what would be written, or why nothing is, comes out.
   */
  method RewriteText(contents: string, dispatch: map<string, string> -> Outcome, ids: nat -> string)
    returns (r: FileOutcome)
    ensures r == Rewrite(contents, dispatch, ids)
  {
    if !Contains(contents, Opening) {
      return Untouched;
    }
    var c := contents;
    var nextStart: nat := 0;
    var used: nat := 0;
    while true
      invariant nextStart <= |c|
      invariant Run(c, nextStart, used, dispatch, ids) == Run(contents, 0, 0, dispatch, ids)
      decreases |c| - nextStart
    {
      var step := ExpandNext(c, nextStart, used, dispatch, ids);
      match step
      case Done =>
        break;
      case Abort(e) =>
        return Raised(e);
      case Advance(c', next', used') =>
        RunAdvances(c, nextStart, used, dispatch, ids, c', next', used');
        c, nextStart, used := c', next', used';
    }
    return Written(c);
  }
}
