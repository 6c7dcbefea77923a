/**
 * The module-level dictionaries of the plugin and the functions over them: `candidates`
 * (key -> candidate rows), `candidatesCache` and `resultCache` (key -> input -> rows), and
 * `uniteMatch`, which answers an input from the caches or matches and fills them.
 */
module Store {
  import opened Text
  import opened Scoring
  import opened Selection
  import opened Query

  /** `d.get(key, [])`. */
  function Lookup(d: map<string, seq<string>>, key: string): seq<string> {
    if key in d then d[key] else []
  }

  /** `cache = d.get(key, {}); cache[inputs] = items`: a key never cleared gets a fresh dictionary
      that is written and then dropped, so nothing is stored. */
  function Put(d: map<string, map<string, seq<string>>>, key: string, inputs: string, items: seq<string>)
    : map<string, map<string, seq<string>>>
  {
    if key in d then d[key := d[key][inputs := items]] else d
  }

  /** What one cache entry for input `q` must hold: `q` yields options, the cached candidates are
      the rows `Match` keeps for `q`, and the cached result is the answer for `q`, both computed
      over every candidate of the key. */
  ghost predicate EntryHolds(cands: seq<string>, q: string, filtered: seq<string>, result: seq<string>,
                             limit: int, mmode: string, sep: char)
  {
    && |QueryOptions(q, mmode)| > 0
    && filtered == Filtered(cands, q, mmode, sep)
    && result == Answer(cands, q, limit, mmode, sep)
  }

  /** The state of the caches that `ok` accepts: both caches have the same keys and inputs, and
      `ok` holds of every entry together with the key's current candidates. */
  ghost predicate CachesAgree(ok: (seq<string>, string, seq<string>, seq<string>) -> bool,
                              cands: map<string, seq<string>>, cc: map<string, map<string, seq<string>>>,
                              rc: map<string, map<string, seq<string>>>)
  {
    && cc.Keys == rc.Keys
    && (forall key :: key in rc ==> cc[key].Keys == rc[key].Keys)
    && forall key, q :: key in rc && q in rc[key] ==> ok(Lookup(cands, key), q, cc[key][q], rc[key][q])
  }

  /** Storing an entry that `ok` accepts keeps the caches agreeing. */
  lemma PutKeepsAgreement(ok: (seq<string>, string, seq<string>, seq<string>) -> bool,
                          cands: map<string, seq<string>>, cc: map<string, map<string, seq<string>>>,
                          rc: map<string, map<string, seq<string>>>, key: string, q: string,
                          filtered: seq<string>, result: seq<string>)
    requires CachesAgree(ok, cands, cc, rc) && ok(Lookup(cands, key), q, filtered, result)
    ensures CachesAgree(ok, cands, Put(cc, key, q, filtered), Put(rc, key, q, result))
  {
  }

  /** Replacing a key's candidates, or none, and emptying its caches keeps the caches agreeing. */
  lemma ResetKeepsAgreement(ok: (seq<string>, string, seq<string>, seq<string>) -> bool,
                            cands: map<string, seq<string>>, cands': map<string, seq<string>>,
                            cc: map<string, map<string, seq<string>>>, rc: map<string, map<string, seq<string>>>,
                            key: string)
    requires CachesAgree(ok, cands, cc, rc)
    requires forall k :: k != key ==> Lookup(cands', k) == Lookup(cands, k)
    ensures CachesAgree(ok, cands', cc[key := map[]], rc[key := map[]])
  {
    var cc', rc' := cc[key := map[]], rc[key := map[]];
    forall k, q | k in rc' && q in rc'[k]
      ensures ok(Lookup(cands', k), q, cc'[k][q], rc'[k][q])
    {
      assert k != key;
    }
  }

  /** The caches agree with a full scan under one limit, mode and separator. */
  ghost function FullScan(limit: int, mmode: string, sep: char): (seq<string>, string, seq<string>, seq<string>) -> bool {
    (c, q, filtered, result) => EntryHolds(c, q, filtered, result, limit, mmode, sep)
  }

  /** `getCandidates` over the dictionaries: the cached rows of the input without its last
      character when there are some, otherwise every candidate of the key. */
  function StartRows(cands: map<string, seq<string>>, cc: map<string, map<string, seq<string>>>,
                     rc: map<string, map<string, seq<string>>>, key: string, inputs: string): seq<string>
  {
    if |inputs| <= 1 then Lookup(cands, key)
    else
      var prefix := inputs[..|inputs| - 1];
      if key in rc && prefix in rc[key] then (if key in cc then Lookup(cc[key], prefix) else [])
      else Lookup(cands, key)
  }

  class SessionStore {
    var candidates: map<string, seq<string>>
    var candidatesCache: map<string, map<string, seq<string>>>
    var resultCache: map<string, map<string, seq<string>>>

    /** The dictionaries start empty, so the caches trivially agree with any full scan. */
    constructor()
      ensures candidates == map[] && candidatesCache == map[] && resultCache == map[]
      ensures forall limit, mmode, sep :: Coherent(limit, mmode, sep)
    {
      candidates := map[];
      candidatesCache := map[];
      resultCache := map[];
    }

    /** The store's caches agree with a full scan under one limit, mode and separator. */
    ghost predicate Coherent(limit: int, mmode: string, sep: char)
      reads this
    {
      CachesAgree(FullScan(limit, mmode, sep), candidates, candidatesCache, resultCache)
    }

    /** `candidates.get(key, [])`. */
    function CandidatesOf(key: string): seq<string>
      reads this
    {
      Lookup(candidates, key)
    }

    /** `clearCache` (and `ClearCache`, which calls it): empty both caches of a key. */
    method ClearCache(key: string)
      modifies this
      ensures candidates == old(candidates)
      ensures candidatesCache == old(candidatesCache)[key := map[]]
      ensures resultCache == old(resultCache)[key := map[]]
      ensures forall q :: !ExistCache(key, q) && GetCandidatesFromCache(key, q) == []
      ensures forall limit, mmode, sep :: old(Coherent(limit, mmode, sep)) ==> Coherent(limit, mmode, sep)
    {
      candidatesCache := candidatesCache[key := map[]];
      resultCache := resultCache[key := map[]];
      forall limit, mmode, sep | old(Coherent(limit, mmode, sep)) ensures Coherent(limit, mmode, sep) {
        ResetKeepsAgreement(FullScan(limit, mmode, sep), candidates, candidates, old(candidatesCache), old(resultCache), key);
      }
    }

    /** `SetCandidates`: replace a key's candidates and empty its caches. */
    method SetCandidates(key: string, items: seq<string>)
      modifies this
      ensures candidates == old(candidates)[key := items]
      ensures candidatesCache == old(candidatesCache)[key := map[]]
      ensures resultCache == old(resultCache)[key := map[]]
      ensures forall limit, mmode, sep :: old(Coherent(limit, mmode, sep)) ==> Coherent(limit, mmode, sep)
    {
      candidates := candidates[key := items];
      ClearCache(key);
      forall limit, mmode, sep | old(Coherent(limit, mmode, sep)) ensures Coherent(limit, mmode, sep) {
        ResetKeepsAgreement(FullScan(limit, mmode, sep), old(candidates), candidates, old(candidatesCache), old(resultCache), key);
      }
    }

    /** `setCandidatesToCache`: store the kept rows for an input, in a key's cache that exists. */
    method SetCandidatesToCache(key: string, inputs: string, items: seq<string>)
      modifies this
      ensures candidatesCache == Put(old(candidatesCache), key, inputs, items)
      ensures candidates == old(candidates) && resultCache == old(resultCache)
      ensures key in old(candidatesCache) ==> GetCandidatesFromCache(key, inputs) == items
      ensures key !in old(candidatesCache) ==> candidatesCache == old(candidatesCache)
    {
      if key in candidatesCache {
        candidatesCache := candidatesCache[key := candidatesCache[key][inputs := items]];
      }
    }

    /** `setResultToCache`: store the answer for an input, in a key's cache that exists. */
    method SetResultToCache(key: string, inputs: string, items: seq<string>)
      modifies this
      ensures resultCache == Put(old(resultCache), key, inputs, items)
      ensures candidates == old(candidates) && candidatesCache == old(candidatesCache)
      ensures key in old(resultCache) ==> ExistCache(key, inputs) && GetResultFromCache(key, inputs) == items
      ensures key !in old(resultCache) ==> resultCache == old(resultCache)
    {
      if key in resultCache {
        resultCache := resultCache[key := resultCache[key][inputs := items]];
      }
    }

    /** `getCandidatesFromCache`: the cached rows, or none. */
    function GetCandidatesFromCache(key: string, inputs: string): seq<string>
      reads this
    {
      if key in candidatesCache then Lookup(candidatesCache[key], inputs) else []
    }

    /** `getResultFromCache`: the cached answer, or none. */
    function GetResultFromCache(key: string, inputs: string): seq<string>
      reads this
    {
      if key in resultCache then Lookup(resultCache[key], inputs) else []
    }

    /** `existCache`: whether an answer is cached for the input. */
    predicate ExistCache(key: string, inputs: string)
      reads this
    {
      key in resultCache && inputs in resultCache[key]
    }

    /** `getCandidates`. */
    function GetCandidates(key: string, inputs: string): seq<string>
      reads this
    {
      StartRows(candidates, candidatesCache, resultCache, key, inputs)
    }

    /** `uniteMatch`: answer from the result cache when it has the input; otherwise match the
        input's options against `getCandidates`, cache the kept rows and the answer, and cut the
        answer to `limit`. With coherent caches the answer is the one a full scan of the key's
        candidates gives, and the caches stay coherent. */
    method UniteMatch(key: string, inputs: string, limit: int, mmode: string, sep: char) returns (rows: seq<string>)
      requires IsSeparator(sep)
      modifies this
      ensures old(ExistCache(key, inputs)) ==>
        rows == old(GetResultFromCache(key, inputs)) && unchanged(this)
      ensures !old(ExistCache(key, inputs)) ==>
        var items, opts, lower := old(GetCandidates(key, inputs)), QueryOptions(inputs, mmode), IsSearchLower(inputs);
        && candidates == old(candidates)
        && (|opts| == 0 ==>
              rows == Truncate(items, limit)
              && candidatesCache == old(candidatesCache) && resultCache == old(resultCache))
        && (|opts| > 0 ==>
              rows == Sort(Matched(opts, items, lower, sep), limit)
              && candidatesCache == Put(old(candidatesCache), key, inputs, FilterRows(Matched(opts, items, lower, sep)))
              && resultCache == Put(old(resultCache), key, inputs, rows))
      ensures old(Coherent(limit, mmode, sep)) ==>
        Coherent(limit, mmode, sep) && rows == Answer(old(CandidatesOf(key)), inputs, limit, mmode, sep)
    {
      if ExistCache(key, inputs) {
        rows := GetResultFromCache(key, inputs);
        if Coherent(limit, mmode, sep) {
          HitAgrees(candidates, candidatesCache, resultCache, key, inputs, limit, mmode, sep);
        }
        return;
      }
      var items := GetCandidates(key, inputs);
      rows := items;
      var rowsFilter := items;
      var lower := IsSearchLower(inputs);
      var opts := QueryOptions(inputs, mmode);
      if |opts| > 0 {
        var rowsWithScore := Match(opts, rows, lower, sep);
        rowsFilter := FilterRows(rowsWithScore);
        rows := Sort(rowsWithScore, limit);
        SetCandidatesToCache(key, inputs, rowsFilter);
        SetResultToCache(key, inputs, rows);
        SortBounded(rowsWithScore, limit);
        TruncateShort(rows, limit);
        if old(Coherent(limit, mmode, sep)) {
          MissAgrees(old(candidates), old(candidatesCache), old(resultCache), key, inputs, limit, mmode, sep);
        }
      } else if old(Coherent(limit, mmode, sep)) {
        NoOptionsAgrees(old(candidates), old(candidatesCache), old(resultCache), key, inputs, limit, mmode, sep);
      }
      rows := Truncate(rows, limit);
    }
  }

  /** Asking the same question twice: with coherent caches, the second `uniteMatch` answers what
      the first did, at most `limit` rows for a non-negative `limit`, and the caches stay
      coherent. */
  method UniteMatchTwice(store: SessionStore, key: string, inputs: string, limit: int, mmode: string, sep: char)
    returns (first: seq<string>, second: seq<string>)
    requires IsSeparator(sep) && store.Coherent(limit, mmode, sep)
    modifies store
    ensures first == second
    ensures limit >= 0 ==> |first| <= limit
    ensures store.Coherent(limit, mmode, sep)
  {
    first := store.UniteMatch(key, inputs, limit, mmode, sep);
    second := store.UniteMatch(key, inputs, limit, mmode, sep);
    if limit >= 0 {
      AnswerBounded(store.CandidatesOf(key), inputs, limit, mmode, sep);
    }
  }

  /** A cached answer is the answer of a full scan. */
  lemma HitAgrees(cands: map<string, seq<string>>, cc: map<string, map<string, seq<string>>>,
                  rc: map<string, map<string, seq<string>>>, key: string, inputs: string,
                  limit: int, mmode: string, sep: char)
    requires CachesAgree(FullScan(limit, mmode, sep), cands, cc, rc) && key in rc && inputs in rc[key]
    ensures Lookup(rc[key], inputs) == Answer(Lookup(cands, key), inputs, limit, mmode, sep)
  {
    CachedEntry(FullScan(limit, mmode, sep), cands, cc, rc, key, inputs);
    assert EntryHolds(Lookup(cands, key), inputs, cc[key][inputs], rc[key][inputs], limit, mmode, sep);
  }

  /** After a miss on an input with options, the caches still agree with a full scan and the
      answer, cut to `limit`, is the full scan's. */
  lemma MissAgrees(cands: map<string, seq<string>>, cc: map<string, map<string, seq<string>>>,
                   rc: map<string, map<string, seq<string>>>, key: string, inputs: string,
                   limit: int, mmode: string, sep: char)
    requires CachesAgree(FullScan(limit, mmode, sep), cands, cc, rc)
    requires IsSeparator(sep) && |QueryOptions(inputs, mmode)| > 0
    ensures var m := Matched(QueryOptions(inputs, mmode), StartRows(cands, cc, rc, key, inputs), IsSearchLower(inputs), sep);
      && CachesAgree(FullScan(limit, mmode, sep), cands, Put(cc, key, inputs, FilterRows(m)), Put(rc, key, inputs, Sort(m, limit)))
      && Truncate(Sort(m, limit), limit) == Answer(Lookup(cands, key), inputs, limit, mmode, sep)
  {
    var m := Matched(QueryOptions(inputs, mmode), StartRows(cands, cc, rc, key, inputs), IsSearchLower(inputs), sep);
    MatchedEntry(cands, cc, rc, key, inputs, limit, mmode, sep);
    PutKeepsAgreement(FullScan(limit, mmode, sep), cands, cc, rc, key, inputs, FilterRows(m), Sort(m, limit));
    SortBounded(m, limit);
    TruncateShort(Sort(m, limit), limit);
  }

  /** After a miss on an input without options, the answer is every candidate, cut to `limit`. */
  lemma NoOptionsAgrees(cands: map<string, seq<string>>, cc: map<string, map<string, seq<string>>>,
                        rc: map<string, map<string, seq<string>>>, key: string, inputs: string,
                        limit: int, mmode: string, sep: char)
    requires CachesAgree(FullScan(limit, mmode, sep), cands, cc, rc)
    requires |QueryOptions(inputs, mmode)| == 0
    ensures Truncate(StartRows(cands, cc, rc, key, inputs), limit) == Answer(Lookup(cands, key), inputs, limit, mmode, sep)
  {
    StartWithoutOptions(cands, cc, rc, key, inputs, limit, mmode, sep);
  }

  /** An entry found in caches that `ok` accepts is one `ok` accepts. */
  lemma CachedEntry(ok: (seq<string>, string, seq<string>, seq<string>) -> bool,
                    cands: map<string, seq<string>>, cc: map<string, map<string, seq<string>>>,
                    rc: map<string, map<string, seq<string>>>, key: string, q: string)
    requires CachesAgree(ok, cands, cc, rc) && key in rc && q in rc[key]
    ensures key in cc && q in cc[key] && ok(Lookup(cands, key), q, cc[key][q], rc[key][q])
  {
  }

  /** An answer no longer than `limit` is not cut. */
  lemma TruncateShort(rows: seq<string>, limit: int)
    requires |rows| <= Bound(limit)
    ensures Truncate(rows, limit) == rows
  {
  }

  /** For an input with options, matching from `getCandidates` keeps the rows, and gives the
      answer, of a full scan of the key's candidates: either it starts from all of them, or from
      the rows cached for the input without its last character, which narrowing only filters. */
  lemma StartWithOptions(cands: map<string, seq<string>>, cc: map<string, map<string, seq<string>>>,
                         rc: map<string, map<string, seq<string>>>, key: string, inputs: string,
                         limit: int, mmode: string, sep: char)
    requires CachesAgree(FullScan(limit, mmode, sep), cands, cc, rc)
    requires IsSeparator(sep) && |QueryOptions(inputs, mmode)| > 0
    ensures var items, c := StartRows(cands, cc, rc, key, inputs), Lookup(cands, key);
      && Filtered(items, inputs, mmode, sep) == Filtered(c, inputs, mmode, sep)
      && Answer(items, inputs, limit, mmode, sep) == Answer(c, inputs, limit, mmode, sep)
  {
    var c := Lookup(cands, key);
    if |inputs| > 1 && key in rc && inputs[..|inputs| - 1] in rc[key] {
      var prefix := inputs[..|inputs| - 1];
      CachedEntry(FullScan(limit, mmode, sep), cands, cc, rc, key, prefix);
      assert EntryHolds(c, prefix, cc[key][prefix], rc[key][prefix], limit, mmode, sep);
      assert StartRows(cands, cc, rc, key, inputs) == Filtered(c, prefix, mmode, sep);
      NarrowedFromPrefix(c, inputs, limit, mmode, sep);
    } else {
      assert StartRows(cands, cc, rc, key, inputs) == c;
    }
  }

  /** Matching an input with options from `getCandidates` gives an entry that agrees with a full
      scan: the kept rows and the answer of the key's candidates. */
  lemma MatchedEntry(cands: map<string, seq<string>>, cc: map<string, map<string, seq<string>>>,
                     rc: map<string, map<string, seq<string>>>, key: string, inputs: string,
                     limit: int, mmode: string, sep: char)
    requires CachesAgree(FullScan(limit, mmode, sep), cands, cc, rc)
    requires IsSeparator(sep) && |QueryOptions(inputs, mmode)| > 0
    ensures var m := Matched(QueryOptions(inputs, mmode), StartRows(cands, cc, rc, key, inputs), IsSearchLower(inputs), sep);
      FullScan(limit, mmode, sep)(Lookup(cands, key), inputs, FilterRows(m), Sort(m, limit))
  {
    StartWithOptions(cands, cc, rc, key, inputs, limit, mmode, sep);
  }

  /** An input without options never finds the input without its last character cached, since
      every cached input has options and keeps them when a character is added. */
  lemma StartWithoutOptions(cands: map<string, seq<string>>, cc: map<string, map<string, seq<string>>>,
                            rc: map<string, map<string, seq<string>>>, key: string, inputs: string,
                            limit: int, mmode: string, sep: char)
    requires CachesAgree(FullScan(limit, mmode, sep), cands, cc, rc)
    requires |QueryOptions(inputs, mmode)| == 0
    ensures StartRows(cands, cc, rc, key, inputs) == Lookup(cands, key)
  {
    if |inputs| > 1 {
      var prefix := inputs[..|inputs| - 1];
      if key in rc && prefix in rc[key] {
        CachedEntry(FullScan(limit, mmode, sep), cands, cc, rc, key, prefix);
        assert EntryHolds(Lookup(cands, key), prefix, cc[key][prefix], rc[key][prefix], limit, mmode, sep);
        OptionsFromPrefix(inputs, mmode);
      }
    }
  }

  /** `OptionsPersist` for an input and the input without its last character. */
  lemma OptionsFromPrefix(inputs: string, mmode: string)
    requires |inputs| > 1 && |QueryOptions(inputs[..|inputs| - 1], mmode)| > 0
    ensures |QueryOptions(inputs, mmode)| > 0
  {
    var prefix := inputs[..|inputs| - 1];
    SplitLast(inputs);
    OptionsPersist(prefix, inputs[|inputs| - 1], mmode);
  }

  /** `NarrowedAnswer` for an input and the input without its last character. */
  lemma NarrowedFromPrefix(cands: seq<string>, inputs: string, limit: int, mmode: string, sep: char)
    requires IsSeparator(sep) && |inputs| > 1 && |QueryOptions(inputs[..|inputs| - 1], mmode)| > 0
    ensures var narrowed := Filtered(cands, inputs[..|inputs| - 1], mmode, sep);
      && Filtered(narrowed, inputs, mmode, sep) == Filtered(cands, inputs, mmode, sep)
      && Answer(narrowed, inputs, limit, mmode, sep) == Answer(cands, inputs, limit, mmode, sep)
  {
    var prefix := inputs[..|inputs| - 1];
    SplitLast(inputs);
    NarrowedAnswer(cands, prefix, inputs[|inputs| - 1], limit, mmode, sep);
  }

  lemma SplitLast(s: string)
    requires |s| > 0
    ensures s == s[..|s| - 1] + [s[|s| - 1]]
  {
  }
}
