/**
 * ads/script.py: `sync_file`, the variant of the marker rewriter that only
 * knows `ads` markers. Its loop, `parse_comment` and `render_start_tag` are
 * those of module Engine and module Comment; what differs is the dispatch on
 * the marker type, and that an `ads` marker without a benefit id is skipped.
 */
module Ads {
  import opened Text
  import opened Comment
  import opened Engine

  /**
   * The call `polar_ads(client, benefit_id, int(height), int(width))`. The
   * advertisement listing it pages through is not part of this model; the
   * `int(...)` conversions fail together with it.
   */
  datatype AdsRequest = AdsRequest(benefitId: string, height: string, width: string)

  /**
   * `args.get("subscription_benefit_id") or args.get("benefit_id")`: the
   * first key when it is present and not empty, otherwise whatever the
   * second lookup gives, the empty string included.
   */
  function BenefitId(args: map<string, string>): (r: Option<string>)
    ensures r.None? <==>
      ("subscription_benefit_id" !in args || args["subscription_benefit_id"] == "") && "benefit_id" !in args
    ensures "subscription_benefit_id" in args && args["subscription_benefit_id"] != "" ==>
      r == Some(args["subscription_benefit_id"])
    ensures ("subscription_benefit_id" !in args || args["subscription_benefit_id"] == "") ==>
      r == if "benefit_id" in args then Some(args["benefit_id"]) else None
  {
    if "subscription_benefit_id" in args && args["subscription_benefit_id"] != "" then
      Some(args["subscription_benefit_id"])
    else if "benefit_id" in args then Some(args["benefit_id"])
    else None
  }

  /**
   * The `if args["type"] == "ads"` branch of `sync_file`: no benefit id
   * skips the marker, a missing `height` or `width` or a failing renderer
   * raises, and any other type is expanded with empty content.
   */
  function Dispatch(render: AdsRequest -> Option<string>, args: map<string, string>): (r: Outcome)
    ensures "type" in args && args["type"] != "ads" ==> r == Rendered("")
    ensures r.Skip? <==> "type" in args && args["type"] == "ads" && BenefitId(args).None?
    ensures r.Fail? <==>
      && "type" in args && args["type"] == "ads" && BenefitId(args).Some?
      && ("height" !in args || "width" !in args
          || render(AdsRequest(BenefitId(args).value, args["height"], args["width"])).None?)
    ensures "type" in args && args["type"] == "ads" && r.Rendered? ==>
      && BenefitId(args).Some? && "height" in args && "width" in args
      && render(AdsRequest(BenefitId(args).value, args["height"], args["width"])) == Some(r.content)
  {
    if "type" !in args || args["type"] != "ads" then Rendered("")
    else
      match BenefitId(args)
      case None => Skip
      case Some(benefit) =>
        if "height" !in args || "width" !in args then Fail
        else
          match render(AdsRequest(benefit, args["height"], args["width"]))
          case None => Fail
          case Some(s) => Rendered(s)
  }

  /** The dispatch as the engine takes it. */
  function Dispatcher(render: AdsRequest -> Option<string>): map<string, string> -> Outcome {
    args => Dispatch(render, args)
  }

  /**
   * An `ads` marker with neither benefit key leaves the text as it is and
   * moves the cursor past its `-->`; the id drawn for it is still used up.
   */
  lemma MissingBenefitSkipped(c: string, cur: nat, used: nat,
                              render: AdsRequest -> Option<string>, ids: nat -> string,
                              idx: nat, parsed: Dict, args: Dict, used': nat)
    requires cur <= |c| && idx == Find(c, Opening, cur)
    requires ParseComment(Tag(c, idx)) == Parsed(parsed)
    requires "type" in parsed.values && parsed.values["type"] == "ads"
    requires "subscription_benefit_id" !in parsed.values || parsed.values["subscription_benefit_id"] == ""
    requires "benefit_id" !in parsed.values
    requires (args, used') == WithId(parsed, used, ids)
    ensures TagEnd(c, idx) >= 0
    ensures Step(c, cur, used, Dispatcher(render), ids) == Advance(c, TagEnd(c, idx) + 3, used')
  {
    assert Dispatcher(render)(args.values) == Skip by {
      assert args.values == parsed.values["id" := args.values["id"]];
    }
    UnterminatedTagRaises(c, idx);
    SkippedMarker(c, cur, used, Dispatcher(render), ids, idx, parsed, args, used');
  }

  /**
   * A marker of any type other than `ads`, `issues` included, is expanded
   * with empty content: start tag, two newlines, end tag.
   */
  lemma OtherTypeExpandedEmpty(c: string, cur: nat, used: nat,
                               render: AdsRequest -> Option<string>, ids: nat -> string,
                               idx: nat, parsed: Dict, args: Dict, used': nat)
    requires cur <= |c| && idx == Find(c, Opening, cur)
    requires ParseComment(Tag(c, idx)) == Parsed(parsed)
    requires "type" in parsed.values && parsed.values["type"] != "ads"
    requires (args, used') == WithId(parsed, used, ids)
    ensures TagEnd(c, idx) >= 0
    ensures var from := AppendFrom(c, idx, TagEnd(c, idx), EndTag(args.values["id"]));
      var piece := Expansion(args, "");
      Step(c, cur, used, Dispatcher(render), ids) == Advance(c[..idx] + piece + c[from..], idx + |piece|, used')
  {
    assert Dispatcher(render)(args.values) == Rendered("") by {
      assert args.values["type"] == parsed.values["type"];
    }
    RenderedMarkerSpliced(c, cur, used, Dispatcher(render), ids, idx, parsed, args, used', "");
  }

  /**
   * `sync_file` without the file I/O: the text read from the file goes in,
   * and what would be written (or the reason nothing is) comes out.
   */
  method SyncFile(contents: string, render: AdsRequest -> Option<string>, ids: nat -> string)
    returns (r: FileOutcome)
    ensures r.Untouched? <==> !Contains(contents, Opening)
    ensures r == Rewrite(contents, Dispatcher(render), ids)
  {
    r := RewriteText(contents, Dispatcher(render), ids);
  }
}
