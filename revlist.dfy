/**
 * Grit::GitRuby::Repository#rev_list as patched by Silo: the commits of a
 * log, optionally cut at an end commit and at a maximum count, rendered
 * either as their raw text or as their ids, one per line.
 */
module RevList {
  import opened Results
  import Strings

  /** One element of the log: a commit id and the commit's raw text. */
  datatype Entry = Entry(sha: string, raw: string)

  /** The sha argument: one commit id, or a two-element array [end, start]. */
  datatype Rev = Sha(sha: string) | Pair(first: string, second: string)

  /** The options rev_list reads: :max_count and :pretty. */
  datatype Options = Options(maxCount: Option<nat>, pretty: Option<string>)

  /**
   * Lines 16-19: the log of the start commit, cut by truncate_arr at the end
   * commit when there is one. Grit's `log` and `truncate_arr` are not part of
   * this model and come in as parameters.
   */
  function Walk(rev: Rev, log: string -> seq<Entry>, truncate: (seq<Entry>, string) -> seq<Entry>): seq<Entry>
  {
    match rev
    case Sha(sha) => log(sha)
    case Pair(endSha, sha) => truncate(log(sha), endSha)
  }

  /** Lines 21-25: keep the first max_count entries when there are more. */
  function Limit(log: seq<Entry>, maxCount: Option<nat>): (r: seq<Entry>)
    ensures r <= log
    ensures maxCount.None? ==> r == log
    ensures maxCount.Some? ==> |r| == if maxCount.value < |log| then maxCount.value else |log|
  {
    if maxCount.Some? && maxCount.value < |log| then log[..maxCount.value] else log
  }

  /** `log.map {|k, v| v }.join('')`. */
  function Raws(es: seq<Entry>): string
    decreases |es|
  {
    if es == [] then "" else es[0].raw + Raws(es[1..])
  }

  /** `log.map {|k, v| k }`. */
  function Shas(es: seq<Entry>): seq<string>
  {
    seq(|es|, i requires 0 <= i < |es| => es[i].sha)
  }

  /** The raw text of a sequence is that of its front followed by that of its back. */
  lemma {:induction false} RawsAppend(a: seq<Entry>, b: seq<Entry>)
    ensures Raws(a + b) == Raws(a) + Raws(b)
    decreases |a|
  {
    if a == [] {
      assert a + b == b;
    } else {
      assert (a + b)[1..] == a[1..] + b;
      RawsAppend(a[1..], b);
    }
  }

  /** Each entry's raw text sits between the text of the entries before it and of those after it, with no separator. */
  lemma RawsAt(es: seq<Entry>, i: nat)
    requires i < |es|
    ensures Raws(es) == Raws(es[..i]) + es[i].raw + Raws(es[i + 1..])
  {
    assert es == es[..i] + es[i..];
    RawsAppend(es[..i], es[i..]);
  }

  /** rev_list(sha, options), lines 15-32. */
  function RevList(rev: Rev, o: Options, log: string -> seq<Entry>, truncate: (seq<Entry>, string) -> seq<Entry>): (out: string)
    ensures o.pretty == Some("raw") ==> out == Raws(Limit(Walk(rev, log, truncate), o.maxCount))
    ensures o.pretty == Some("raw") ==> out <= Raws(Walk(rev, log, truncate))
    ensures o.pretty != Some("raw") && (o.maxCount == Some(0) || Walk(rev, log, truncate) == []) ==> out == ""
  {
    var all := Walk(rev, log, truncate);
    var entries := Limit(all, o.maxCount);
    assert all == entries + all[|entries|..];
    RawsAppend(entries, all[|entries|..]);
    if o.pretty == Some("raw") then Raws(entries) else Strings.Join(Shas(entries), '\n')
  }

  /**
   * In a two-element array the second element starts the log, and the first
   * reaches the output only through truncate_arr: where cutting at it keeps
   * every log, the pair lists what the start id alone lists.
   */
  lemma PairOrder(endSha: string, sha: string, o: Options, log: string -> seq<Entry>, truncate: (seq<Entry>, string) -> seq<Entry>)
    requires forall l :: truncate(l, endSha) == l
    ensures RevList(Pair(endSha, sha), o, log, truncate) == RevList(Sha(sha), o, log, truncate)
  {
  }

  /** A pair lists what its starting id lists under a log already cut at the pair's first element. */
  lemma PairAsCutLog(endSha: string, sha: string, o: Options, log: string -> seq<Entry>, truncate: (seq<Entry>, string) -> seq<Entry>)
    ensures RevList(Pair(endSha, sha), o, log, truncate) == RevList(Sha(sha), o, x => truncate(log(x), endSha), truncate)
  {
  }

  /** In raw mode the output is the raw text of the kept entries, in log order. */
  lemma RawOutput(rev: Rev, o: Options, log: string -> seq<Entry>, truncate: (seq<Entry>, string) -> seq<Entry>)
    requires o.pretty == Some("raw")
    ensures var kept := Limit(Walk(rev, log, truncate), o.maxCount);
      forall i :: 0 <= i < |kept| ==>
           RevList(rev, o, log, truncate) == Raws(kept[..i]) + kept[i].raw + Raws(kept[i + 1..])
  {
    var kept := Limit(Walk(rev, log, truncate), o.maxCount);
    forall i | 0 <= i < |kept|
      ensures Raws(kept) == Raws(kept[..i]) + kept[i].raw + Raws(kept[i + 1..])
    {
      RawsAt(kept, i);
    }
  }

  /**
   * Otherwise the output splits on newlines into exactly the ids of the kept
   * entries, in log order; with nothing kept it is empty. When the last kept
   * id is non-empty the output does not end in a newline.
   */
  lemma LineOutput(rev: Rev, o: Options, log: string -> seq<Entry>, truncate: (seq<Entry>, string) -> seq<Entry>)
    requires o.pretty != Some("raw")
    requires forall e :: e in Walk(rev, log, truncate) ==> '\n' !in e.sha
    ensures var kept := Limit(Walk(rev, log, truncate), o.maxCount);
      && (kept == [] ==> RevList(rev, o, log, truncate) == "")
      && (kept != [] ==> Strings.Fields(RevList(rev, o, log, truncate), '\n') == Shas(kept))
      && (kept != [] && kept[|kept| - 1].sha != "" ==>
            var out := RevList(rev, o, log, truncate); out != "" && out[|out| - 1] != '\n')
  {
    var kept := Limit(Walk(rev, log, truncate), o.maxCount);
    if kept != [] {
      assert forall i :: 0 <= i < |kept| ==> kept[i] in Walk(rev, log, truncate);
      Strings.FieldsJoin(Shas(kept), '\n');
      Strings.JoinEnds(Shas(kept), '\n');
      var last := kept[|kept| - 1].sha;
      if last != "" {
        var out := RevList(rev, o, log, truncate);
        assert out[|out| - |last|..] == last;
        assert out[|out| - 1] == last[|last| - 1];
        assert last[|last| - 1] in last;
      }
    }
  }
}
