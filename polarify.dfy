/**
 * polarify/polarify.py: `polarify_file`, which expands `issues`,
 * `backers-avatars` and `ads` markers: which renderer each type calls, with
 * which arguments, and which keys it cannot do without.
 */
module Polarify {
  import opened Text
  import opened Comment
  import opened Engine

  /** The sort order asked for when a marker names none. */
  const DefaultSort: string := "funding_goal_desc_and_most_positive_reactions"

  /**
   * A call of one of the three renderers, with the arguments the loop reads
   * out of the marker. The renderers (HTTP requests and HTML templates) are
   * not part of this model; the `int(...)` conversions of `limit`, `height`
   * and `width` happen on the way into them and fail with them.
   */
  datatype Request =
    | IssuesRequest(org: string, repo: string, limit: Option<string>, sort: string,
                    havePledge: Option<bool>, haveBadge: Option<bool>)  // limit None: 5
    | BackersRequest(org: string)
    | AdsRequest(subscriptionBenefitId: string, height: string, width: string)

  /** The conditional lookup `args[k] if k in args else None`. */
  function Get(args: map<string, string>, k: string): (r: Option<string>)
    ensures r.Some? <==> k in args
    ensures r.Some? ==> r.value == args[k]
  {
    if k in args then Some(args[k]) else None
  }

  /** `bool(args[k]) if k in args else None`: a string is true when it is not empty. */
  function Flag(args: map<string, string>, k: string): (r: Option<bool>)
    ensures r.Some? <==> k in args
    ensures r.Some? ==> (r.value <==> args[k] != "")
  {
    if k in args then Some(args[k] != "") else None
  }

  /** The keys each marker type reads with `args[k]`, whose absence raises `KeyError`. */
  function Required(t: string): (r: seq<string>)
    ensures r != [] <==> Known(t)
    ensures "org" in r <==> t == "issues" || t == "backers-avatars"
    ensures "repo" in r <==> t == "issues"
    ensures ("subscription_benefit_id" in r <==> t == "ads") && ("height" in r <==> t == "ads")
    ensures "width" in r <==> t == "ads"
    ensures "limit" !in r && "sort" !in r && "have_pledge" !in r && "have_badge" !in r
    ensures "type" !in r && "id" !in r
  {
    if t == "issues" then ["org", "repo"]
    else if t == "backers-avatars" then ["org"]
    else if t == "ads" then ["subscription_benefit_id", "height", "width"]
    else []
  }

  /** The marker types `polarify_file` renders. */
  predicate Known(t: string) {
    t == "issues" || t == "backers-avatars" || t == "ads"
  }

  /** The renderer call for a marker of a known type that has all its required keys. */
  function RequestFor(args: map<string, string>): (r: Request)
    requires "type" in args && Known(args["type"])
    requires forall k :: k in Required(args["type"]) ==> k in args
    ensures r.IssuesRequest? <==> args["type"] == "issues"
    ensures r.BackersRequest? <==> args["type"] == "backers-avatars"
    ensures r.AdsRequest? <==> args["type"] == "ads"
    ensures r.IssuesRequest? ==>
      && r.org == args["org"] && r.repo == args["repo"]
      && (r.limit.Some? <==> "limit" in args) && (r.limit.Some? ==> r.limit.value == args["limit"])
      && ("sort" in args ==> r.sort == args["sort"]) && ("sort" !in args ==> r.sort == DefaultSort)
      && (r.havePledge.Some? <==> "have_pledge" in args) && (r.haveBadge.Some? <==> "have_badge" in args)
      && (r.havePledge.Some? ==> (r.havePledge.value <==> args["have_pledge"] != ""))
      && (r.haveBadge.Some? ==> (r.haveBadge.value <==> args["have_badge"] != ""))
    ensures r.BackersRequest? ==> r.org == args["org"]
    ensures r.AdsRequest? ==>
      && r.subscriptionBenefitId == args["subscription_benefit_id"]
      && r.height == args["height"] && r.width == args["width"]
  {
    var t := args["type"];
    if t == "issues" then
      IssuesRequest(args["org"], args["repo"], Get(args, "limit"),
                    if "sort" in args then args["sort"] else DefaultSort,
                    Flag(args, "have_pledge"), Flag(args, "have_badge"))
    else if t == "backers-avatars" then BackersRequest(args["org"])
    else AdsRequest(args["subscription_benefit_id"], args["height"], args["width"])
  }

  /**
   * The `if`/`elif` chain of `polarify_file`: a known type calls its
   * renderer, which fails on a missing key or when the renderer raises; any
   * other type renders as the empty string. The loop consults this only for
   * markers with a type; a marker without one is read as one of unknown type.
   */
  function Dispatch(render: Request -> Option<string>, args: map<string, string>): (r: Outcome)
    ensures !r.Skip?
    ensures "type" in args && !Known(args["type"]) ==> r == Rendered("")
    ensures "type" in args && Known(args["type"]) ==>
      (r.Fail? <==> (exists k :: k in Required(args["type"]) && k !in args)
                    || render(RequestFor(args)).None?)
    ensures "type" in args && Known(args["type"]) && r.Rendered? ==>
      render(RequestFor(args)) == Some(r.content)
  {
    var t := if "type" in args then args["type"] else "";
    if !Known(t) then Rendered("")
    else if exists k :: k in Required(t) && k !in args then Fail
    else
      match render(RequestFor(args))
      case None => Fail
      case Some(s) => Rendered(s)
  }

  /** The dispatch as the engine takes it. */
  function Dispatcher(render: Request -> Option<string>): map<string, string> -> Outcome {
    args => Dispatch(render, args)
  }

  /**
   * A marker of a type `polarify_file` does not know is still expanded, with
   * empty content: start tag, two newlines, end tag.
   */
  lemma UnknownTypeExpandedEmpty(c: string, cur: nat, used: nat,
                                 render: Request -> Option<string>, ids: nat -> string,
                                 idx: nat, parsed: Dict, args: Dict, used': nat)
    requires cur <= |c| && idx == Find(c, Opening, cur)
    requires ParseComment(Tag(c, idx)) == Parsed(parsed)
    requires "type" in parsed.values && !Known(parsed.values["type"])
    requires (args, used') == WithId(parsed, used, ids)
    ensures TagEnd(c, idx) >= 0
    ensures var from := AppendFrom(c, idx, TagEnd(c, idx), EndTag(args.values["id"]));
      var piece := Expansion(args, "");
      Step(c, cur, used, Dispatcher(render), ids) == Advance(c[..idx] + piece + c[from..], idx + |piece|, used')
  {
    assert Dispatcher(render)(args.values) == Rendered("") by {
      assert args.values["type"] == parsed.values["type"];
    }
    RenderedMarkerSpliced(c, cur, used, Dispatcher(render), ids, idx, parsed, args, used', "");
  }

  /**
   * `polarify_file` without the file I/O: the text read from the file goes
   * in, and what would be written (or the reason nothing is) comes out.
   */
  method PolarifyFile(contents: string, render: Request -> Option<string>, ids: nat -> string)
    returns (r: FileOutcome)
    ensures r.Untouched? <==> !Contains(contents, Opening)
    ensures r == Rewrite(contents, Dispatcher(render), ids)
  {
    r := RewriteText(contents, Dispatcher(render), ids);
  }
}
