/** The option dictionary a `Download` object hands to the downloader:
    the defaults set by `__init__`, key-by-key overrides by `__init__` and
    `update_opts`, and the language that `get_result` appends to
    `subtitleslangs` in place. */
module Options {
  import opened Wrappers

  /** The values the dictionary holds. `Logger` stands for the `FakeLogger`
      instance installed by default. */
  datatype Value = Flag(on: bool) | Str(s: string) | TextList(items: seq<string>) | Logger

  /** The options dictionary. */
  type Opts = map<string, Value>

  const SkipDownload: string := "skip_download"
  const WriteAutomaticSub: string := "writeautomaticsub"
  const OutTemplate: string := "outtmpl"
  const LoggerKey: string := "logger"
  const SubtitlesLangs: string := "subtitleslangs"

  /** The dictionary `__init__` starts from. */
  function Defaults(): (d: Opts)
    ensures d.Keys == {SkipDownload, WriteAutomaticSub, OutTemplate, LoggerKey}
    ensures SubtitlesLangs !in d
  {
    map[SkipDownload := Flag(true),
        WriteAutomaticSub := Flag(true),
        OutTemplate := Str("subtitle_%(id)s"),
        LoggerKey := Logger]
  }

  /** Python's `base.update(overrides)`: every key of `overrides` takes its
      value from there; every other key of `base` keeps its value. */
  function Update(base: Opts, overrides: Opts): (r: Opts)
    ensures r.Keys == base.Keys + overrides.Keys
    ensures forall k :: k in overrides ==> r[k] == overrides[k]
    ensures forall k :: k in base && k !in overrides ==> r[k] == base[k]
  {
    base + overrides
  }

  /** `Download.__init__(opts)`: the defaults, overridden key by key. */
  function Init(opts: Opts): (r: Opts)
    ensures r.Keys == Defaults().Keys + opts.Keys
    ensures forall k :: k in opts ==> r[k] == opts[k]
    ensures forall k :: k in Defaults() && k !in opts ==> r[k] == Defaults()[k]
  {
    Update(Defaults(), opts)
  }

  /** `Download.update_opts(opts)`: the current options, overridden key by key. */
  function UpdateOpts(current: Opts, opts: Opts): (r: Opts)
    ensures r.Keys == current.Keys + opts.Keys
    ensures forall k :: k in opts ==> r[k] == opts[k]
    ensures forall k :: k in current && k !in opts ==> r[k] == current[k]
  {
    Update(current, opts)
  }

  /** Python's `[*v]` on a string: its characters, one string each. */
  function Characters(s: string): (r: seq<string>)
    ensures |r| == |s|
    ensures forall i :: 0 <= i < |s| ==> r[i] == [s[i]]
  {
    seq(|s|, i requires 0 <= i < |s| => [s[i]])
  }

  /** `[*opts.get('subtitleslangs', [])]`: the languages already requested.
      A missing key gives none; a string unpacks into its characters; a
      flag or the logger is not iterable, which Python reports as a
      `TypeError` (here `None`). */
  function RequestedLanguages(opts: Opts): (r: Option<seq<string>>)
    ensures SubtitlesLangs !in opts ==> r == Some([])
    ensures SubtitlesLangs in opts && opts[SubtitlesLangs].TextList? ==> r == Some(opts[SubtitlesLangs].items)
    ensures SubtitlesLangs in opts && opts[SubtitlesLangs].Str? ==> r == Some(Characters(opts[SubtitlesLangs].s))
    ensures r.None? <==> SubtitlesLangs in opts && (opts[SubtitlesLangs].Flag? || opts[SubtitlesLangs].Logger?)
  {
    if SubtitlesLangs !in opts then Some([])
    else match opts[SubtitlesLangs]
      case TextList(items) => Some(items)
      case Str(s) => Some(Characters(s))
      case Flag(_) => None
      case Logger => None
  }

  /** The effect of `get_result` on `self.opts`, which `opts` aliases: a
      non-empty language is appended to `subtitleslangs`, everything else
      stays; an empty language changes nothing. `None` is the `TypeError`
      raised when the present value cannot be unpacked, which leaves the
      dictionary as it was. */
  function AddLanguage(opts: Opts, language: string): (r: Option<Opts>)
    ensures language == "" ==> r == Some(opts)
    ensures language != "" && RequestedLanguages(opts).None? ==> r.None?
    ensures language != "" && RequestedLanguages(opts).Some? ==>
      && r.Some?
      && r.value.Keys == opts.Keys + {SubtitlesLangs}
      && r.value[SubtitlesLangs] == TextList(RequestedLanguages(opts).value + [language])
      && (forall k :: k in opts && k != SubtitlesLangs ==> r.value[k] == opts[k])
  {
    if language == "" then Some(opts)
    else match RequestedLanguages(opts)
      case None => None
      case Some(langs) => Some(opts[SubtitlesLangs := TextList(langs + [language])])
  }

  /** `n` copies of `x`. */
  function Repeat(x: string, n: nat): (r: seq<string>)
    ensures |r| == n
    ensures forall i :: 0 <= i < n ==> r[i] == x
  {
    seq(n, _ => x)
  }

  /** The options after `n` calls of `get_result` with the same language,
      `None` once one of them raised. */
  function AddLanguageTimes(opts: Opts, language: string, n: nat): Option<Opts>
    decreases n
  {
    if n == 0 then Some(opts)
    else match AddLanguage(opts, language)
      case None => None
      case Some(o) => AddLanguageTimes(o, language, n - 1)
  }

  /** Repeated calls accumulate: starting from any unpackable entry (or
      none), `n` calls with a non-empty language append it `n` times, preserving the
      earlier entries and every other key. */
  lemma {:induction false} AddLanguageAccumulates(opts: Opts, language: string, n: nat, langs: seq<string>)
    requires language != ""
    requires RequestedLanguages(opts) == Some(langs)
    ensures var r := AddLanguageTimes(opts, language, n);
      && r.Some?
      && (n > 0 ==>
            && r.value.Keys == opts.Keys + {SubtitlesLangs}
            && r.value[SubtitlesLangs] == TextList(langs + Repeat(language, n)))
      && (forall k :: k in opts && k != SubtitlesLangs ==> r.value[k] == opts[k])
    decreases n
  {
    if n > 0 {
      var o := AddLanguage(opts, language).value;
      assert RequestedLanguages(o) == Some(langs + [language]);
      AddLanguageAccumulates(o, language, n - 1, langs + [language]);
      assert langs + [language] + Repeat(language, n - 1) == langs + Repeat(language, n);
    }
  }

  /** Two calls with non-empty languages give two entries, in call order,
      after whatever list was there. */
  lemma AddLanguageTwice(opts: Opts, first: string, second: string, langs: seq<string>)
    requires first != "" && second != ""
    requires RequestedLanguages(opts) == Some(langs)
    ensures var once := AddLanguage(opts, first);
      && once.Some?
      && AddLanguage(once.value, second).Some?
      && AddLanguage(once.value, second).value[SubtitlesLangs] == TextList(langs + [first, second])
  {
    var once := AddLanguage(opts, first).value;
    assert RequestedLanguages(once) == Some(langs + [first]);
    assert langs + [first] + [second] == langs + [first, second];
  }
}
