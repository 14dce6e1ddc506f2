/**
  The environment-variable helpers of the Django settings
  (07/config/settings.py): `_get_bool`, `_split_csv` and
  `_parse_database_url`. The URL parser `urlparse` is an oracle that
  returns the components of a URL.
*/
module Settings {
  import opened Base
  import opened Seqs
  import opened Text

  /** The spellings `_get_bool` reads as true, after `strip().lower()`. */
  const TrueWords: set<string> := {"1", "true", "yes", "on"}

  /** `_get_bool`: the default for an unset variable; otherwise true iff a true word. */
  function GetBool(value: Option<string>, default: bool): (r: bool)
    ensures value.None? ==> r == default
  {
    match value
    case None => default
    case Some(s) => Lower(Strip(s)) in TrueWords
  }

  /** Leading whitespace is all that `lstrip` removes. */
  lemma {:induction false} LStripPadded(a: string, t: string)
    requires AllSpace(a) && (t == [] || !IsSpace(t[0]))
    ensures LStrip(a + t) == t
  {
    if a != [] {
      assert (a + t)[1..] == a[1..] + t;
      LStripPadded(a[1..], t);
    }
  }

  /** Trailing whitespace is all that `rstrip` removes. */
  lemma {:induction false} RStripPadded(t: string, b: string)
    requires AllSpace(b) && t != [] && !IsSpace(t[|t| - 1])
    ensures RStrip(t + b) == t
  {
    if b != [] {
      var b' := b[..|b| - 1];
      assert (t + b)[..|t + b| - 1] == t + b';
      RStripPadded(t, b');
    }
  }

  /** A non-empty word without whitespace at its ends, padded with whitespace, strips back to itself. */
  lemma StripPadded(a: string, w: string, b: string)
    requires AllSpace(a) && AllSpace(b) && w != [] && !IsSpace(w[0]) && !IsSpace(w[|w| - 1])
    ensures Strip(a + w + b) == w
  {
    assert a + w + b == a + (w + b);
    LStripPadded(a, w + b);
    RStripPadded(w, b);
  }

  /** Every word of `words` is non-empty and has no whitespace at its ends. */
  predicate TrimmedWords(words: set<string>)
  {
    forall w :: w in words ==> w != [] && !IsSpace(w[0]) && !IsSpace(w[|w| - 1])
  }

  lemma TrueWordsTrimmed()
    ensures TrimmedWords(TrueWords)
  {
  }

  /** A string that lowers to a trimmed word is itself trimmed: `lower` keeps whitespace. */
  lemma LowerTrimmed(x: string, words: set<string>)
    requires TrimmedWords(words) && Lower(x) in words
    ensures x != [] && !IsSpace(x[0]) && !IsSpace(x[|x| - 1])
  {
    assert Lower(x)[0] == LowerChar(x[0]);
    assert Lower(x)[|x| - 1] == LowerChar(x[|x| - 1]);
  }

  /** A value whose stripped, lowered form is a word has that word, up to case, between whitespace. */
  lemma StripLowerFound(s: string, words: set<string>)
    requires Lower(Strip(s)) in words
    ensures exists i, j :: 0 <= i <= j <= |s| && AllSpace(s[..i]) && AllSpace(s[j..]) && Lower(s[i..j]) in words
  {
    var i, j := StripShape(s);
    assert Lower(s[i..j]) in words;
  }

  /** A word of trimmed words, up to case, between whitespace, strips and lowers to that word. */
  lemma StripLowerPadded(s: string, words: set<string>, i: int, j: int)
    requires TrimmedWords(words)
    requires 0 <= i <= j <= |s| && AllSpace(s[..i]) && AllSpace(s[j..]) && Lower(s[i..j]) in words
    ensures Lower(Strip(s)) in words
  {
    LowerTrimmed(s[i..j], words);
    assert s == s[..i] + s[i..j] + s[j..];
    StripPadded(s[..i], s[i..j], s[j..]);
  }

  /** `strip().lower() in words` for trimmed words: the value is a word, up to case, padded with whitespace. */
  lemma StripLowerIn(s: string, words: set<string>)
    requires TrimmedWords(words)
    ensures Lower(Strip(s)) in words <==>
      exists i, j :: 0 <= i <= j <= |s| && AllSpace(s[..i]) && AllSpace(s[j..]) && Lower(s[i..j]) in words
  {
    if Lower(Strip(s)) in words {
      StripLowerFound(s, words);
    } else if exists i, j :: 0 <= i <= j <= |s| && AllSpace(s[..i]) && AllSpace(s[j..]) && Lower(s[i..j]) in words {
      var i, j :| 0 <= i <= j <= |s| && AllSpace(s[..i]) && AllSpace(s[j..]) && Lower(s[i..j]) in words;
      StripLowerPadded(s, words, i, j);
    }
  }

  /**
    `_get_bool` on a set variable is true exactly when the value is a true
    word, in any ASCII case, with whitespace around it.
  */
  lemma GetBoolIff(s: string, default: bool)
    ensures GetBool(Some(s), default) <==>
      exists i, j :: 0 <= i <= j <= |s| && AllSpace(s[..i]) && AllSpace(s[j..]) && Lower(s[i..j]) in TrueWords
  {
    TrueWordsTrimmed();
    StripLowerIn(s, TrueWords);
  }

  /** No comma in `s`. */
  predicate NoComma(s: string)
  {
    forall i :: 0 <= i < |s| ==> s[i] != ','
  }

  lemma NoCommaIff(s: string)
    ensures NoComma(s) <==> !Contains(s, [','])
  {
    if NoComma(s) {
      NotContainsElem(s, ',');
    } else {
      var i :| 0 <= i < |s| && s[i] == ',';
      assert s[i..i + 1] == [','];
      assert OccursAt(s, [','], i);
      ContainsIff(s, [',']);
    }
  }

  /** `strip` brings in no comma. */
  lemma StripNoComma(s: string)
    requires NoComma(s)
    ensures NoComma(Strip(s))
  {
    var i, j := StripShape(s);
  }

  /** The comma-separated pieces kept by `_split_csv`: stripped, empty ones dropped, in order. */
  function NonEmptyStripped(parts: seq<string>): (r: seq<string>)
    ensures |r| <= |parts|
    ensures forall k :: 0 <= k < |r| ==> r[k] != [] && IsStripped(r[k])
  {
    if parts == [] then []
    else
      var rest := NonEmptyStripped(parts[1..]);
      var item := Strip(parts[0]);
      if item == [] then rest else [item] + rest
  }

  /** An item is kept exactly when it is a non-empty stripped piece. */
  lemma {:induction false} NonEmptyStrippedMember(parts: seq<string>, x: string)
    ensures x in NonEmptyStripped(parts) <==> x != [] && x in Map(Strip, parts)
  {
    if parts != [] {
      var tail := parts[1..];
      var item := Strip(parts[0]);
      NonEmptyStrippedMember(tail, x);
      MapCons(Strip, parts);
      assert x in Map(Strip, parts) <==> x == item || x in Map(Strip, tail);
      if item == [] {
        assert NonEmptyStripped(parts) == NonEmptyStripped(tail);
      } else {
        assert NonEmptyStripped(parts) == [item] + NonEmptyStripped(tail);
      }
    }
  }

  /** The kept items are exactly the non-empty stripped pieces. */
  lemma NonEmptyStrippedMembers(parts: seq<string>)
    ensures forall x :: x in NonEmptyStripped(parts) <==> x != [] && x in Map(Strip, parts)
  {
    forall x ensures x in NonEmptyStripped(parts) <==> x != [] && x in Map(Strip, parts) {
      NonEmptyStrippedMember(parts, x);
    }
  }

  /** No string in `xs` holds a comma. */
  predicate AllNoComma(xs: seq<string>)
  {
    forall k :: 0 <= k < |xs| ==> NoComma(xs[k])
  }

  /** Stripping pieces without commas leaves items without commas. */
  lemma {:induction false} NonEmptyStrippedNoComma(parts: seq<string>)
    requires AllNoComma(parts)
    ensures AllNoComma(NonEmptyStripped(parts))
  {
    if parts != [] {
      var tail := parts[1..];
      assert AllNoComma(tail) by {
        forall k | 0 <= k < |tail| ensures NoComma(tail[k]) {
          assert tail[k] == parts[k + 1];
        }
      }
      NonEmptyStrippedNoComma(tail);
      var rest := NonEmptyStripped(tail);
      var item := Strip(parts[0]);
      StripNoComma(parts[0]);
      if item != [] {
        assert NonEmptyStripped(parts) == [item] + rest;
        AllNoCommaCons(item, rest);
      }
    }
  }

  lemma AllNoCommaCons(x: string, xs: seq<string>)
    requires NoComma(x) && AllNoComma(xs)
    ensures AllNoComma([x] + xs)
  {
    var r := [x] + xs;
    forall k | 0 <= k < |r| ensures NoComma(r[k]) {
      if k > 0 {
        assert r[k] == xs[k - 1];
      }
    }
  }

  /**
    `_split_csv`: the default for an unset or empty variable; otherwise the
    non-empty stripped comma-separated items, none of them holding a comma.
  */
  function SplitCsv(value: Option<string>, default: seq<string>): (r: seq<string>)
    ensures value.None? || value.value == [] ==> r == default
    ensures value.Some? && value.value != [] ==>
              forall k :: 0 <= k < |r| ==> r[k] != [] && IsStripped(r[k]) && NoComma(r[k])
  {
    if value.None? || value.value == [] then default
    else
      var parts := Split(value.value, [',']);
      assert AllNoComma(parts) by {
        forall k | 0 <= k < |parts| ensures NoComma(parts[k]) {
          NoCommaIff(parts[k]);
        }
      }
      NonEmptyStrippedNoComma(parts);
      var r := NonEmptyStripped(parts);
      assert forall k :: 0 <= k < |r| ==> NoComma(r[k]);
      r
  }

  /**
    The items `_split_csv` returns for a set variable are exactly the
    comma-separated pieces of the value that are non-empty once stripped,
    each stripped.
  */
  lemma SplitCsvMembers(value: string, default: seq<string>)
    requires value != []
    ensures forall x :: x in SplitCsv(Some(value), default) <==> x != [] && x in Map(Strip, Split(value, [',']))
  {
    NonEmptyStrippedMembers(Split(value, [',']));
  }

  /** A string already stripped is kept by `strip`. */
  lemma StripStripped(s: string)
    requires IsStripped(s)
    ensures Strip(s) == s
  {
    if s != [] {
      StripPadded([], s, []);
      assert [] + s + [] == s;
    }
  }

  /** Items without a comma, joined with commas, split back into the same items. */
  lemma {:induction false} SplitJoin(items: seq<string>)
    requires items != []
    requires forall k :: 0 <= k < |items| ==> NoComma(items[k])
    ensures Split(Join(items, [',']), [',']) == items
  {
    if |items| == 1 {
      NoCommaIff(items[0]);
    } else {
      SplitFirstPiece(items[0], ',', Join(items[1..], [',']));
      SplitJoin(items[1..]);
      assert [items[0]] + items[1..] == items;
    }
  }

  /** `NonEmptyStripped` keeps a list of non-empty stripped items as it is. */
  lemma {:induction false} NonEmptyStrippedKeeps(items: seq<string>)
    requires forall k :: 0 <= k < |items| ==> items[k] != [] && IsStripped(items[k])
    ensures NonEmptyStripped(items) == items
  {
    if items != [] {
      NonEmptyStrippedKeeps(items[1..]);
      StripStripped(items[0]);
      ConsTail(items);
    }
  }

  /**
    `_split_csv` inverts `",".join`: a non-empty list of non-empty, stripped
    items without commas comes back unchanged.
  */
  lemma SplitCsvJoin(items: seq<string>, default: seq<string>)
    requires items != []
    requires forall k :: 0 <= k < |items| ==> items[k] != [] && IsStripped(items[k]) && NoComma(items[k])
    ensures SplitCsv(Some(Join(items, [','])), default) == items
  {
    SplitJoin(items);
    NonEmptyStrippedKeeps(items);
    assert |Join(items, [','])| >= |items[0]|;
  }

  /** What `urlparse` reports of a URL; reading `.port` may raise ValueError. */
  datatype UrlParts = UrlParts(
    scheme: string,
    path: string,
    username: Option<string>,
    password: Option<string>,
    hostname: Option<string>,
    port: Result<Option<int>, Exception>)

  type UrlParser = string -> UrlParts

  /** The `DATABASES["default"]` entry. */
  datatype Database =
    | Sqlite(name: string)
    | Postgres(name: string, user: string, password: string, host: string, port: string)

  const SqlitePrefix := "sqlite:///"
  const SqliteEngine := "django.db.backends.sqlite3"
  const PostgresEngine := "django.db.backends.postgresql"

  function Engine(db: Database): string
  {
    if db.Sqlite? then SqliteEngine else PostgresEngine
  }

  /** Python's `s.replace(old, new, 1)`. */
  function ReplaceFirst(s: string, pattern: string, replacement: string): (r: string)
    ensures !Contains(s, pattern) ==> r == s
  {
    match IndexOf(s, pattern)
    case None => s
    case Some(i) => s[..i] + replacement + s[i + |pattern|..]
  }

  /** `x or ""`. */
  function OrEmpty(x: Option<string>): (r: string)
    ensures x.Some? ==> r == x.value
  {
    if x.Some? then x.value else ""
  }

  /** `str(port or "")`: an absent or zero port gives "". */
  function PortText(port: Option<int>): (r: string)
    ensures port.None? || port.value == 0 ==> r == ""
    ensures port.Some? && port.value != 0 ==> r == IntToString(port.value)
  {
    if port.None? || port.value == 0 then "" else IntToString(port.value)
  }

  /**
    `_parse_database_url`: a `sqlite:///` URL names its file; otherwise the
    scheme must be `postgres` or `postgresql`, else ValueError.
  */
  function ParseDatabaseUrl(url: string, urlparse: UrlParser): (r: Result<Database, Exception>)
    ensures r.Success? && r.value.Sqlite? <==> SqlitePrefix <= url
    ensures !(SqlitePrefix <= url) ==>
              (urlparse(url).scheme !in {"postgres", "postgresql"} ==>
                 r == Failure(ValueError("Unsupported DATABASE_URL scheme: " + urlparse(url).scheme)))
    ensures r.Success? && r.value.Postgres? ==>
              urlparse(url).scheme in {"postgres", "postgresql"}
              && r.value.name == LStripChar(urlparse(url).path, '/')
              && r.value.user == OrEmpty(urlparse(url).username)
              && r.value.host == OrEmpty(urlparse(url).hostname)
              && r.value.password == OrEmpty(urlparse(url).password)
              && urlparse(url).port.Success? && r.value.port == PortText(urlparse(url).port.value)
    ensures !(SqlitePrefix <= url) && urlparse(url).scheme in {"postgres", "postgresql"} && urlparse(url).port.Failure? ==>
              r == Failure(urlparse(url).port.error)
  {
    if SqlitePrefix <= url then
      Success(Sqlite(ReplaceFirst(url, SqlitePrefix, "")))
    else
      var parsed := urlparse(url);
      if parsed.scheme !in {"postgres", "postgresql"} then
        Failure(ValueError("Unsupported DATABASE_URL scheme: " + parsed.scheme))
      else if parsed.port.Failure? then
        Failure(parsed.port.error)
      else
        Success(Postgres(
          LStripChar(parsed.path, '/'),
          OrEmpty(parsed.username),
          OrEmpty(parsed.password),
          OrEmpty(parsed.hostname),
          PortText(parsed.port.value)))
  }

  /** A sqlite URL names the database by everything after the prefix: only the prefix is removed. */
  lemma SqliteName(url: string, urlparse: UrlParser)
    requires SqlitePrefix <= url
    ensures ParseDatabaseUrl(url, urlparse) == Success(Sqlite(url[|SqlitePrefix|..]))
  {
    assert url[..|SqlitePrefix|] == SqlitePrefix;
    assert IndexOf(url, SqlitePrefix) == Some(0);
    assert ReplaceFirst(url, SqlitePrefix, "") == url[..0] + "" + url[|SqlitePrefix|..];
    assert url[..0] + "" + url[|SqlitePrefix|..] == url[|SqlitePrefix|..];
  }

  /** A postgres URL with a readable port always gives a configuration; its name has no leading `/`. */
  lemma PostgresAccepted(url: string, urlparse: UrlParser)
    requires !(SqlitePrefix <= url)
    requires urlparse(url).scheme in {"postgres", "postgresql"} && urlparse(url).port.Success?
    ensures ParseDatabaseUrl(url, urlparse).Success?
    ensures var db := ParseDatabaseUrl(url, urlparse).value;
      db.Postgres? && Engine(db) == PostgresEngine && (db.name == [] || db.name[0] != '/')
  {
  }
}
