/** The score store of api.js: the local top-ten list kept in browser
    storage, the record built from a player's name, and the choice between
    the local list and the remote endpoint. Storage, the clock and the
    network are values passed in and returned. */
module Leaderboard {

  datatype Option<T> = None | Some(value: T)

  /** Storage key of the top-ten list. */
  const STORAGE_KEY: string := "tetrisTopScores"

  /** Length of the stored list. */
  const MAX_ENTRIES: nat := 10

  /** The name given to a player who entered none. */
  const DEFAULT_NAME: string := "Player"

  /** The difficulty recorded when the caller passes none. */
  const DEFAULT_DIFFICULTY: string := "medium"

  /** A persisted score. Entries read back from storage may lack a
      timestamp. */
  datatype ScoreRecord = ScoreRecord(name: string, score: int, difficulty: string, timestamp: Option<int>)

  /** A parsed JSON value, as far as the store looks at it. */
  datatype Json = JArray(items: seq<ScoreRecord>) | JNonArray

  /** A stored string as `JSON.parse` sees it: the empty string, text that
      parses to a value, or text that does not parse. */
  datatype Stored = EmptyText | Parses(json: Json) | Malformed

  type Storage = map<string, Stored>

  // ---------------------------------------------------------------------
  // Ordering

  /** `b.timestamp || 0`: a missing timestamp counts as 0. */
  function TimeKey(r: ScoreRecord): int
  {
    match r.timestamp
    case Some(t) => t
    case None => 0
  }

  /** The comparator passed to `sort`: negative when `a` belongs before
      `b`, that is, a higher score or, on equal scores, a later time. */
  function Compare(a: ScoreRecord, b: ScoreRecord): int
  {
    if b.score != a.score then b.score - a.score else TimeKey(b) - TimeKey(a)
  }

  /** `a` ranks at least as high as `b`: a higher score, or an equal
      score and a timestamp no earlier. */
  predicate RanksAtLeast(a: ScoreRecord, b: ScoreRecord)
  {
    a.score > b.score || (a.score == b.score && TimeKey(a) >= TimeKey(b))
  }

  /** The comparator orders records by rank: it is antisymmetric in sign,
      and it is non-positive exactly when the first ranks at least as high
      as the second. */
  lemma CompareMatchesRank(a: ScoreRecord, b: ScoreRecord)
    ensures Compare(a, b) == -Compare(b, a)
    ensures Compare(a, b) <= 0 <==> RanksAtLeast(a, b)
    ensures Compare(a, b) < 0 <==> !RanksAtLeast(b, a)
  {
  }

  /** Score descending, then timestamp descending. */
  ghost predicate Sorted(s: seq<ScoreRecord>)
  {
    forall i, j :: 0 <= i < j < |s| ==> RanksAtLeast(s[i], s[j])
  }

  /** Places `x` before the first entry it strictly outranks, that is,
      after every entry the comparator does not put behind it, so that
      entries the comparator calls equal keep their order. */
  function Insert(s: seq<ScoreRecord>, x: ScoreRecord): (r: seq<ScoreRecord>)
    ensures multiset(r) == multiset(s) + multiset{x}
    ensures |r| == |s| + 1
  {
    if |s| == 0 then [x]
    else if Compare(x, s[0]) < 0 then [x] + s
    else
      assert s == [s[0]] + s[1..];
      [s[0]] + Insert(s[1..], x)
  }

  lemma {:induction false} InsertKeepsSorted(s: seq<ScoreRecord>, x: ScoreRecord)
    requires Sorted(s)
    ensures Sorted(Insert(s, x))
    decreases |s|
  {
    if |s| > 0 {
      CompareMatchesRank(x, s[0]);
      if Compare(x, s[0]) >= 0 {
        var rest := Insert(s[1..], x);
        InsertKeepsSorted(s[1..], x);
        forall k | 0 <= k < |rest|
          ensures RanksAtLeast(s[0], rest[k])
        {
          assert rest[k] in multiset(rest);
          assert rest[k] in multiset(s[1..]) || rest[k] == x;
          if rest[k] != x {
            var m :| 0 <= m < |s[1..]| && s[1..][m] == rest[k];
            assert s[1 + m] == rest[k];
          }
        }
      }
    }
  }

  /** `Array.prototype.sort` with the comparator above. The sort is stable,
      so it is modelled as an insertion sort taking entries in list order. */
  function Sort(s: seq<ScoreRecord>): (r: seq<ScoreRecord>)
    ensures multiset(r) == multiset(s)
    ensures |r| == |s|
  {
    if |s| == 0 then []
    else
      assert s == s[..|s| - 1] + [s[|s| - 1]];
      Insert(Sort(s[..|s| - 1]), s[|s| - 1])
  }

  lemma {:induction false} SortSorts(s: seq<ScoreRecord>)
    ensures Sorted(Sort(s))
    decreases |s|
  {
    if |s| > 0 {
      SortSorts(s[..|s| - 1]);
      InsertKeepsSorted(Sort(s[..|s| - 1]), s[|s| - 1]);
    }
  }

  function Min(a: int, b: int): int
  {
    if a < b then a else b
  }

  /** The list `saveScoreLocal` keeps: the previous list plus the new
      record, sorted, cut to its first MAX_ENTRIES entries. */
  function TopScores(prev: seq<ScoreRecord>, rec: ScoreRecord): (top: seq<ScoreRecord>)
    ensures |top| == Min(MAX_ENTRIES, |prev| + 1)
  {
    Sort(prev + [rec])[..Min(MAX_ENTRIES, |prev| + 1)]
  }

  /** A prefix of a sorted list is sorted and outranks the rest. */
  lemma PrefixOutranksRest(s: seq<ScoreRecord>, n: nat)
    requires Sorted(s) && n <= |s|
    ensures Sorted(s[..n])
    ensures forall d, k :: d in multiset(s[n..]) && k in s[..n] ==> RanksAtLeast(k, d)
  {
    forall d, k | d in multiset(s[n..]) && k in s[..n]
      ensures RanksAtLeast(k, d)
    {
      var jd :| 0 <= jd < |s[n..]| && s[n..][jd] == d;
      var jk :| 0 <= jk < n && s[..n][jk] == k;
      assert s[n + jd] == d && s[jk] == k;
    }
  }

  /** The kept list is sorted, is drawn from the previous list and the new
      record, and outranks everything the cut dropped; a short previous
      list loses nothing, so the new record is kept. */
  lemma TopScoresSpec(prev: seq<ScoreRecord>, rec: ScoreRecord)
    ensures var top := TopScores(prev, rec);
      && Sorted(top)
      && multiset(top) <= multiset(prev + [rec])
      && (forall d, k :: d in multiset(prev + [rec]) - multiset(top) && k in top ==> RanksAtLeast(k, d))
      && (|prev| < MAX_ENTRIES ==> rec in top && multiset(top) == multiset(prev + [rec]))
  {
    var all := prev + [rec];
    var sorted := Sort(all);
    SortSorts(all);
    var n := Min(MAX_ENTRIES, |prev| + 1);
    var top := sorted[..n];
    assert sorted == top + sorted[n..];
    assert multiset(sorted) == multiset(top) + multiset(sorted[n..]);
    assert multiset(all) - multiset(top) == multiset(sorted[n..]);
    PrefixOutranksRest(sorted, n);
    if |prev| < MAX_ENTRIES {
      assert top == sorted;
      assert rec in multiset(all);
    }
  }

  // ---------------------------------------------------------------------
  // Local storage

  /** `getTopScoresLocal`: the stored array when the key holds non-empty
      text that parses to an array; otherwise the empty list. */
  function LoadTopScores(st: Storage): (r: seq<ScoreRecord>)
    ensures (STORAGE_KEY in st && st[STORAGE_KEY].Parses? && st[STORAGE_KEY].json.JArray?) ==>
              r == st[STORAGE_KEY].json.items
    ensures !(STORAGE_KEY in st && st[STORAGE_KEY].Parses? && st[STORAGE_KEY].json.JArray?) ==> r == []
  {
    if STORAGE_KEY !in st then []
    else match st[STORAGE_KEY]
      case EmptyText => []
      case Malformed => []
      case Parses(JNonArray) => []
      case Parses(JArray(items)) => items
  }

  /** The storage after a save, and the value the save returned. */
  datatype Saved = Saved(storage: Storage, ok: bool)

  /** `saveScoreLocal`: writes the new top list under the list's key,
      touches no other key, and reports success. */
  function SaveLocal(st: Storage, rec: ScoreRecord): (r: Saved)
    ensures r.ok
    ensures r.storage == st[STORAGE_KEY := Parses(JArray(TopScores(LoadTopScores(st), rec)))]
    ensures r.storage.Keys == st.Keys + {STORAGE_KEY}
  {
    var top := TopScores(LoadTopScores(st), rec);
    Saved(st[STORAGE_KEY := Parses(JArray(top))], true)
  }

  /** What a save writes is what the next load reads: a sorted list of at
      most MAX_ENTRIES entries that holds the new record whenever the
      previous list was short. */
  lemma SaveThenLoad(st: Storage, rec: ScoreRecord)
    ensures var loaded := LoadTopScores(SaveLocal(st, rec).storage);
      && loaded == TopScores(LoadTopScores(st), rec)
      && Sorted(loaded)
      && |loaded| <= MAX_ENTRIES
      && (|LoadTopScores(st)| < MAX_ENTRIES ==> rec in loaded)
  {
    TopScoresSpec(LoadTopScores(st), rec);
  }

  /** Repeated saves grow the stored list by one entry each until it
      holds MAX_ENTRIES, and never beyond. */
  lemma {:induction false} SavesKeepAtMostTen(st: Storage, recs: seq<ScoreRecord>)
    requires |recs| > 0
    ensures |LoadTopScores(SaveAll(st, recs))| == Min(MAX_ENTRIES, |LoadTopScores(st)| + |recs|)
    decreases |recs|
  {
    if |recs| > 1 {
      SavesKeepAtMostTen(SaveLocal(st, recs[0]).storage, recs[1..]);
    }
  }

  /** Saves each record in turn. */
  function SaveAll(st: Storage, recs: seq<ScoreRecord>): Storage
    decreases |recs|
  {
    if |recs| == 0 then st else SaveAll(SaveLocal(st, recs[0]).storage, recs[1..])
  }

  // ---------------------------------------------------------------------
  // The record built from the player's input

  /** The whitespace `trim` removes, restricted to a fixed set: space, tab,
      line feed, vertical tab, form feed, carriage return, no-break space
      and the byte-order mark. */
  predicate IsSpace(c: char)
  {
    c == ' ' || c == '\t' || c == '\n' || c == '\U{0B}' || c == '\U{0C}' || c == '\r'
    || c == '\U{A0}' || c == '\U{FEFF}'
  }

  predicate AllSpace(s: string)
  {
    forall k :: 0 <= k < |s| ==> IsSpace(s[k])
  }

  /** Drops leading whitespace. */
  function TrimStart(s: string): (r: string)
    ensures |r| <= |s| && r == s[|s| - |r|..]
    ensures AllSpace(s[..|s| - |r|])
    ensures r == [] || !IsSpace(r[0])
  {
    if |s| > 0 && IsSpace(s[0]) then
      var r := TrimStart(s[1..]);
      assert s[1..][..|s[1..]| - |r|] == s[1..|s| - |r|];
      assert forall k :: 0 <= k < |s| - |r| ==> IsSpace(s[k]) by {
        forall k | 0 <= k < |s| - |r|
          ensures IsSpace(s[k])
        {
          if k > 0 { assert s[k] == s[1..][..|s[1..]| - |r|][k - 1]; }
        }
      }
      r
    else s
  }

  /** Drops trailing whitespace. */
  function TrimEnd(s: string): (r: string)
    ensures |r| <= |s| && r == s[..|r|]
    ensures AllSpace(s[|r|..])
    ensures r == [] || !IsSpace(r[|r| - 1])
  {
    if |s| > 0 && IsSpace(s[|s| - 1]) then
      var r := TrimEnd(s[..|s| - 1]);
      assert s[..|s| - 1][|r|..] == s[|r|..|s| - 1];
      assert forall k :: |r| <= k < |s| ==> IsSpace(s[k]) by {
        forall k | |r| <= k < |s|
          ensures IsSpace(s[k])
        {
          if k < |s| - 1 { assert s[k] == s[..|s| - 1][|r|..][k - |r|]; }
        }
      }
      r
    else s
  }

  /** `name.trim()`. */
  function Trim(s: string): (r: string)
    ensures r == [] || (!IsSpace(r[0]) && !IsSpace(r[|r| - 1]))
  {
    TrimEnd(TrimStart(s))
  }

  /** The trimmed name is the part between the leading and the trailing
      whitespace, and it is empty exactly when the name is all whitespace. */
  lemma TrimIsInfix(s: string)
    ensures var r := Trim(s);
      && (exists i, j :: 0 <= i <= j <= |s| && r == s[i..j] && AllSpace(s[..i]) && AllSpace(s[j..]))
      && (r == [] <==> AllSpace(s))
  {
    var a := TrimStart(s);
    var r := TrimEnd(a);
    var i := |s| - |a|;
    var j := i + |r|;
    assert r == s[i..j];
    assert s[j..] == a[|r|..];
    assert a[|r|..] == a ==> a == [];
    assert a == [] ==> s[..i] == s;
    assert a != [] ==> a[0] == s[i];
  }

  /** `name.trim() || 'Player'`. */
  function PlayerName(name: string): (r: string)
    ensures r != []
    ensures AllSpace(name) ==> r == DEFAULT_NAME
    ensures !AllSpace(name) ==> r == Trim(name)
  {
    TrimIsInfix(name);
    var t := Trim(name);
    if t == [] then DEFAULT_NAME else t
  }

  /** The record `saveScore` builds; `now` stands for `Date.now()`. */
  function MakeRecord(name: string, score: int, difficulty: Option<string>, now: int): (r: ScoreRecord)
    ensures r.name == PlayerName(name) && r.score == score && r.timestamp == Some(now)
    ensures r.difficulty == (if difficulty.Some? then difficulty.value else DEFAULT_DIFFICULTY)
  {
    ScoreRecord(PlayerName(name), score,
                match difficulty case Some(d) => d case None => DEFAULT_DIFFICULTY,
                Some(now))
  }

  // ---------------------------------------------------------------------
  // Local or remote

  /** `API_CONFIG`, without the request timeout. */
  datatype ApiConfig = ApiConfig(apiUrl: Option<string>, useLocalStorage: bool)

  /** As shipped: no endpoint, local storage on. */
  const DEFAULT_CONFIG: ApiConfig := ApiConfig(None, true)

  /** Both operations stay local when local storage is switched on or the
      endpoint is unset or the empty string. */
  predicate UsesLocal(cfg: ApiConfig)
  {
    cfg.useLocalStorage || cfg.apiUrl == None || cfg.apiUrl == Some("")
  }

  /** The outcome of a request to the endpoint: a response body, or a
      failure. A failure is a network error, a timeout, a status that is
      not ok, a body that is not JSON, or a JSON `null` body, on which
      reading `scores` or `success` throws and the caller falls back to
      local storage. */
  datatype Remote<T> = Responded(body: T) | Failed

  /** `getTopScores`: the local list, unless an endpoint is in use and
      answers; its body's `scores`, when absent, reads as the empty list. */
  function GetTopScores(cfg: ApiConfig, st: Storage, remote: Remote<Option<seq<ScoreRecord>>>): (r: seq<ScoreRecord>)
    ensures UsesLocal(cfg) || remote.Failed? ==> r == LoadTopScores(st)
    ensures !UsesLocal(cfg) && remote.Responded? ==>
              r == (if remote.body.Some? then remote.body.value else [])
  {
    if UsesLocal(cfg) then LoadTopScores(st)
    else match remote
      case Failed => LoadTopScores(st)
      case Responded(None) => []
      case Responded(Some(scores)) => scores
  }

  /** `saveScore`: builds the record, then saves it locally, or posts it
      and returns the body's `success` flag, read as its truthiness; a
      failed post falls back to the local save. Storage changes only on
      the local path. */
  function SaveScore(cfg: ApiConfig, st: Storage, name: string, score: int, difficulty: Option<string>,
                     now: int, remote: Remote<bool>): (r: Saved)
    ensures var rec := MakeRecord(name, score, difficulty, now);
      (UsesLocal(cfg) || remote.Failed?) ==> r == SaveLocal(st, rec)
    ensures !UsesLocal(cfg) && remote.Responded? ==> r == Saved(st, remote.body)
    ensures !r.ok ==> r.storage == st
  {
    var rec := MakeRecord(name, score, difficulty, now);
    if UsesLocal(cfg) then SaveLocal(st, rec)
    else match remote
      case Failed => SaveLocal(st, rec)
      case Responded(success) => Saved(st, success)
  }

  /** Saving never fails unless the endpoint itself answers that it did
      not store the score; whenever the save went to local storage, the
      new record is on a short list read back afterwards. */
  lemma SaveFailsOpen(cfg: ApiConfig, st: Storage, name: string, score: int, difficulty: Option<string>,
                      now: int, remote: Remote<bool>)
    ensures var r := SaveScore(cfg, st, name, score, difficulty, now, remote);
      && (r.ok || (!UsesLocal(cfg) && remote == Responded(false)))
      && ((UsesLocal(cfg) || remote.Failed?) && |LoadTopScores(st)| < MAX_ENTRIES ==>
            MakeRecord(name, score, difficulty, now) in LoadTopScores(r.storage))
  {
  }

  /** With the shipped configuration every read and write is local. */
  lemma DefaultConfigIsLocal()
    ensures UsesLocal(DEFAULT_CONFIG)
  {
  }
}
