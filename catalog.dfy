/** The mirror catalog and its normalisation from the raw feed
    (linux-mirrors/src/archlinux/response.rs): raw per-mirror records are
    grouped into one entry per country name. */
module Catalog {
  import opened Common

  /** An `f64` statistic, carried as its bit pattern; the model does no
      arithmetic on it. */
  datatype F64 = F64(bits: bv64)

  /** `external::Url`: one raw mirror record of the feed. */
  datatype RawUrl = RawUrl(
    url: string,
    protocol: string,
    lastSync: Option<string>,
    completionPct: Option<F64>,
    delay: Option<int>,
    durationAvg: Option<F64>,
    durationStddev: Option<F64>,
    score: Option<F64>,
    active: bool,
    country: string,
    countryCode: string,
    isos: bool,
    ipv4: bool,
    ipv6: bool,
    details: string)

  /** `external::ArchLinuxMirrors`: the feed as decoded. */
  datatype ArchLinuxMirrors = ArchLinuxMirrors(
    cutoff: int,
    lastCheck: string,
    numChecks: int,
    checkFrequency: int,
    urls: seq<RawUrl>,
    version: int)

  /** `internal::Mirror`: a raw record without its country fields. */
  datatype Mirror = Mirror(
    url: string,
    protocol: string,
    lastSync: Option<string>,
    completionPct: Option<F64>,
    delay: Option<int>,
    durationAvg: Option<F64>,
    durationStddev: Option<F64>,
    score: Option<F64>,
    active: bool,
    isos: bool,
    ipv4: bool,
    ipv6: bool,
    details: string)

  /** `internal::Url`: one country and its mirrors. */
  datatype Url = Url(country: string, countryCode: string, mirrors: seq<Mirror>)

  /** `internal::ArchMirrors`: the normalised catalog. */
  datatype ArchMirrors = ArchMirrors(
    cutoff: int,
    lastCheck: string,
    numChecks: int,
    checkFrequency: int,
    countries: seq<Url>,
    version: int)

  /** `ArchMirrors::default()`. */
  const EMPTY_CATALOG: ArchMirrors := ArchMirrors(0, "", 0, 0, [], 0)

  function ToMirror(u: RawUrl): Mirror {
    Mirror(u.url, u.protocol, u.lastSync, u.completionPct, u.delay, u.durationAvg,
           u.durationStddev, u.score, u.active, u.isos, u.ipv4, u.ipv6, u.details)
  }

  /** The raw country strings, the empty one included. */
  function RawCountries(urls: seq<RawUrl>): set<string> {
    set u | u in urls :: u.country
  }

  function Names(countries: seq<Url>): set<string> {
    set c | c in countries :: c.country
  }

  predicate NamesDistinct(countries: seq<Url>) {
    forall i, j :: 0 <= i < j < |countries| ==> countries[i].country != countries[j].country
  }

  /** The mirrors of the records named `name`, in feed order. */
  function MirrorsOf(urls: seq<RawUrl>, name: string): seq<Mirror> {
    if urls == [] then []
    else
      var u := urls[|urls| - 1];
      MirrorsOf(urls[..|urls| - 1], name) + (if u.country == name then [ToMirror(u)] else [])
  }

  /** `urls.into_iter().find(|x| x.country.eq(&name))`. */
  function FirstWithCountry(urls: seq<RawUrl>, name: string): (r: Option<RawUrl>)
    ensures r.Some? ==> exists i :: 0 <= i < |urls| && urls[i] == r.value && urls[i].country == name &&
                          forall j :: 0 <= j < i ==> urls[j].country != name
    ensures r.None? <==> name !in RawCountries(urls)
  {
    if urls == [] then None
    else if urls[0].country == name then Some(urls[0])
    else
      var r := FirstWithCountry(urls[1..], name);
      assert forall j :: 1 <= j < |urls| ==> urls[j] == urls[1..][j - 1];
      RawCountriesCons(urls);
      r
  }

  lemma RawCountriesCons(urls: seq<RawUrl>)
    requires urls != []
    ensures RawCountries(urls) == {urls[0].country} + RawCountries(urls[1..])
  {
    assert urls == [urls[0]] + urls[1..];
  }

  /** The country code a group receives: that of the first record with the
      group's name, or `String::default()` when there is none. */
  function CodeOf(urls: seq<RawUrl>, name: string): string {
    match FirstWithCountry(urls, name)
    case Some(loc) => loc.countryCode
    case None => ""
  }

  /** What `From<external::ArchLinuxMirrors> for ArchMirrors` promises about
      its result; the order of the groups is that of a `HashMap` and is left
      open. */
  ghost predicate Normalised(root: ArchLinuxMirrors, r: ArchMirrors) {
    && r.cutoff == root.cutoff
    && r.lastCheck == root.lastCheck
    && r.numChecks == root.numChecks
    && r.checkFrequency == root.checkFrequency
    && r.version == root.version
    && NamesDistinct(r.countries)
    && Names(r.countries) == RawCountries(root.urls)
    && forall c :: c in r.countries ==>
         c.mirrors == MirrorsOf(root.urls, c.country) && c.countryCode == CodeOf(root.urls, c.country)
  }

  lemma MirrorsOfAbsent(urls: seq<RawUrl>, name: string)
    requires name !in RawCountries(urls)
    ensures MirrorsOf(urls, name) == []
    decreases |urls|
  {
    if urls != [] {
      var n := |urls| - 1;
      assert RawCountries(urls[..n]) <= RawCountries(urls) by {
        forall x | x in RawCountries(urls[..n]) ensures x in RawCountries(urls) {
          var u :| u in urls[..n] && u.country == x;
          assert u in urls;
        }
      }
      MirrorsOfAbsent(urls[..n], name);
      assert urls[n] in urls;
    }
  }

  /** The first pass of the conversion: one map entry per country string,
      holding that country's mirrors in feed order
      (`entry(..).or_default().push(..)`). */
  method GroupByCountry(urls: seq<RawUrl>) returns (groups: map<string, seq<Mirror>>)
    ensures groups.Keys == RawCountries(urls)
    ensures forall n :: n in groups ==> groups[n] == MirrorsOf(urls, n)
  {
    groups := map[];
    var i := 0;
    while i < |urls|
      invariant 0 <= i <= |urls|
      invariant groups.Keys == RawCountries(urls[..i])
      invariant forall n :: n in groups ==> groups[n] == MirrorsOf(urls[..i], n)
    {
      var u := urls[i];
      var existing := if u.country in groups then groups[u.country] else [];
      GroupStep(urls[..i], u, groups);
      assert urls[..i + 1] == urls[..i] + [u];
      groups := groups[u.country := existing + [ToMirror(u)]];
      i := i + 1;
    }
    assert urls[..i] == urls;
  }

  /** One turn of the first pass: pushing a record onto its country's
      entry keeps the map equal to the grouping of the longer prefix. */
  lemma GroupStep(prefix: seq<RawUrl>, u: RawUrl, groups: map<string, seq<Mirror>>)
    requires groups.Keys == RawCountries(prefix)
    requires forall n :: n in groups ==> groups[n] == MirrorsOf(prefix, n)
    ensures var existing := if u.country in groups then groups[u.country] else [];
            var next := groups[u.country := existing + [ToMirror(u)]];
            && next.Keys == RawCountries(prefix + [u])
            && forall n :: n in next ==> next[n] == MirrorsOf(prefix + [u], n)
  {
    var urls := prefix + [u];
    assert urls[..|urls| - 1] == prefix;
    if u.country !in groups {
      MirrorsOfAbsent(prefix, u.country);
    }
    assert RawCountries(urls) == RawCountries(prefix) + {u.country} by {
      forall x | x in RawCountries(urls) ensures x in RawCountries(prefix) + {u.country} {
        var v :| v in urls && v.country == x;
        if v != u { assert v in prefix; }
      }
    }
  }

  /** The closure of the second pass: a country with the given mirrors and
      the code of the first record with its name, or the empty code when no
      record has it. */
  function CountryEntry(urls: seq<RawUrl>, name: string, mirrors: seq<Mirror>): (url: Url)
    ensures url.country == name && url.mirrors == mirrors
    ensures url.countryCode == CodeOf(urls, name)
  {
    var url := Url(name, "", mirrors);
    match FirstWithCountry(urls, name)
    case Some(loc) => url.(countryCode := loc.countryCode)
    case None => url
  }

  /** The second pass of the conversion: each entry of the map, taken in the
      map's own order, becomes a country carrying the code of the first
      record with its name. */
  method CollectCountries(urls: seq<RawUrl>, groups: map<string, seq<Mirror>>) returns (countries: seq<Url>)
    ensures NamesDistinct(countries)
    ensures Names(countries) == groups.Keys
    ensures forall c :: c in countries ==>
              c.country in groups && c.mirrors == groups[c.country] &&
              c.countryCode == CodeOf(urls, c.country)
  {
    var remaining := groups.Keys;
    countries := [];
    while remaining != {}
      invariant Collected(urls, groups, countries, remaining)
      decreases |remaining|
    {
      var name :| name in remaining;
      CollectStep(urls, groups, countries, remaining, name);
      countries := countries + [CountryEntry(urls, name, groups[name])];
      remaining := remaining - {name};
    }
  }

  /** The loop invariant of the second pass: the countries built so far and
      the names still to visit split the map's keys, and every country built
      matches its group. */
  predicate Collected(urls: seq<RawUrl>, groups: map<string, seq<Mirror>>, countries: seq<Url>, remaining: set<string>) {
    && Names(countries) + remaining == groups.Keys
    && Names(countries) !! remaining
    && NamesDistinct(countries)
    && forall c :: c in countries ==>
         c.country in groups && c.mirrors == groups[c.country] &&
         c.countryCode == CodeOf(urls, c.country)
  }

  /** One turn of the second pass keeps the invariant. */
  lemma CollectStep(urls: seq<RawUrl>, groups: map<string, seq<Mirror>>, countries: seq<Url>,
                    remaining: set<string>, name: string)
    requires Collected(urls, groups, countries, remaining) && name in remaining
    ensures name in groups
    ensures Collected(urls, groups, countries + [CountryEntry(urls, name, groups[name])], remaining - {name})
  {
    var url := CountryEntry(urls, name, groups[name]);
    NamesSnoc(countries, url);
  }

  /** `From<external::ArchLinuxMirrors> for ArchMirrors`: groups the records
      by country and copies the feed's header fields. */
  method FromExternal(root: ArchLinuxMirrors) returns (r: ArchMirrors)
    ensures Normalised(root, r)
  {
    var groups := GroupByCountry(root.urls);
    var countries := CollectCountries(root.urls, groups);
    r := ArchMirrors(root.cutoff, root.lastCheck, root.numChecks, root.checkFrequency, countries, root.version);
  }

  lemma NamesSnoc(countries: seq<Url>, url: Url)
    requires NamesDistinct(countries) && url.country !in Names(countries)
    ensures Names(countries + [url]) == Names(countries) + {url.country}
    ensures NamesDistinct(countries + [url])
  {
    var s := countries + [url];
    forall i, j | 0 <= i < j < |s| ensures s[i].country != s[j].country {
      if j < |countries| {
        assert s[i] == countries[i] && s[j] == countries[j];
      } else {
        assert s[i] in countries;
      }
    }
  }

  /** Splitting the first country off a list with distinct names. */
  lemma NamesSplit(countries: seq<Url>)
    requires countries != [] && NamesDistinct(countries)
    ensures NamesDistinct(countries[1..])
    ensures Names(countries) == {countries[0].country} + Names(countries[1..])
    ensures countries[0].country !in Names(countries[1..])
  {
    var rest := countries[1..];
    forall i, j | 0 <= i < j < |rest| ensures rest[i].country != rest[j].country {
      assert rest[i] == countries[i + 1] && rest[j] == countries[j + 1];
    }
    assert countries == [countries[0]] + rest;
    forall c | c in rest ensures c.country != countries[0].country {
      var j :| 0 <= j < |rest| && rest[j] == c;
      assert countries[j + 1] == c;
    }
  }

  // ---------------------------------------------------------------------
  // Conservation: every raw record lands in exactly one group

  function TotalMirrors(countries: seq<Url>): nat {
    if countries == [] then 0 else |countries[0].mirrors| + TotalMirrors(countries[1..])
  }

  /** The number of records of `urls` whose country is one of the names of
      `countries`. */
  function CountNamed(urls: seq<RawUrl>, countries: seq<Url>): nat {
    if countries == [] then 0
    else |MirrorsOf(urls, countries[0].country)| + CountNamed(urls, countries[1..])
  }

  lemma {:induction false} CountNamedSnoc(urls: seq<RawUrl>, u: RawUrl, countries: seq<Url>)
    requires NamesDistinct(countries)
    ensures CountNamed(urls + [u], countries) ==
              CountNamed(urls, countries) + (if u.country in Names(countries) then 1 else 0)
    decreases |countries|
  {
    if countries != [] {
      var rest := countries[1..];
      assert (urls + [u])[..|urls|] == urls;
      NamesSplit(countries);
      CountNamedSnoc(urls, u, rest);
    }
  }

  lemma {:induction false} CountNamedCoversAll(urls: seq<RawUrl>, countries: seq<Url>)
    requires NamesDistinct(countries)
    requires RawCountries(urls) <= Names(countries)
    ensures CountNamed(urls, countries) == |urls|
    decreases |urls|
  {
    if urls == [] {
      CountNamedEmpty(countries);
    } else {
      var n := |urls| - 1;
      var init, u := urls[..n], urls[n];
      assert urls == init + [u];
      assert RawCountries(init) <= RawCountries(urls) by {
        forall x | x in RawCountries(init) ensures x in RawCountries(urls) {
          var v :| v in init && v.country == x;
          assert v in urls;
        }
      }
      CountNamedCoversAll(init, countries);
      CountNamedSnoc(init, u, countries);
      assert u in urls;
    }
  }

  lemma {:induction false} CountNamedEmpty(countries: seq<Url>)
    ensures CountNamed([], countries) == 0
    decreases |countries|
  {
    if countries != [] {
      CountNamedEmpty(countries[1..]);
    }
  }

  lemma {:induction false} TotalIsCountNamed(urls: seq<RawUrl>, countries: seq<Url>)
    requires forall c :: c in countries ==> c.mirrors == MirrorsOf(urls, c.country)
    ensures TotalMirrors(countries) == CountNamed(urls, countries)
    decreases |countries|
  {
    if countries != [] {
      assert countries[0] in countries;
      assert forall c :: c in countries[1..] ==> c in countries;
      TotalIsCountNamed(urls, countries[1..]);
    }
  }

  /** The groups hold as many mirrors together as the feed has records. */
  lemma GroupingConservesMirrors(root: ArchLinuxMirrors, r: ArchMirrors)
    requires Normalised(root, r)
    ensures TotalMirrors(r.countries) == |root.urls|
  {
    TotalIsCountNamed(root.urls, r.countries);
    CountNamedCoversAll(root.urls, r.countries);
  }

  /** Every raw record shows up, as its `Mirror`, in the group named by its
      country string, and that group's code is the code of the first record
      with the same name. */
  lemma RecordLandsInItsGroup(root: ArchLinuxMirrors, r: ArchMirrors, i: nat)
    requires Normalised(root, r)
    requires i < |root.urls|
    ensures exists c :: c in r.countries && c.country == root.urls[i].country &&
                        ToMirror(root.urls[i]) in c.mirrors
    ensures forall c :: c in r.countries && c.country == root.urls[i].country ==>
                        exists j :: 0 <= j <= i && root.urls[j].country == c.country &&
                                    c.countryCode == root.urls[j].countryCode
    ensures forall p, q ::
              (0 <= p < |r.countries| && 0 <= q < |r.countries| &&
               r.countries[p].country == root.urls[i].country &&
               r.countries[q].country == root.urls[i].country) ==> p == q
  {
    var urls := root.urls;
    var name := urls[i].country;
    assert urls[i] in urls;
    assert name in Names(r.countries);
    var c :| c in r.countries && c.country == name;
    MirrorsOfContains(urls, i);
    var f := FirstWithCountry(urls, name);
    assert f.Some?;
  }

  lemma {:induction false} MirrorsOfContains(urls: seq<RawUrl>, i: nat)
    requires i < |urls|
    ensures ToMirror(urls[i]) in MirrorsOf(urls, urls[i].country)
    decreases |urls|
  {
    var n := |urls| - 1;
    if i < n {
      MirrorsOfContains(urls[..n], i);
    }
  }

  /** The grouping example: two records of "FR" and one with an empty country
      give two groups, "FR" with two mirrors and "" with one. */
  lemma GroupingExample(root: ArchLinuxMirrors, r: ArchMirrors, a: RawUrl, b: RawUrl, c: RawUrl)
    requires a.country == "FR" && b.country == "FR" && c.country == ""
    requires root.urls == [a, b, c]
    requires Normalised(root, r)
    ensures |r.countries| == 2
    ensures exists i :: 0 <= i < 2 && r.countries[i].country == "FR" &&
                        r.countries[i].mirrors == [ToMirror(a), ToMirror(b)]
    ensures exists i :: 0 <= i < 2 && r.countries[i].country == "" &&
                        r.countries[i].mirrors == [ToMirror(c)]
  {
    ExampleFeed(a, b, c);
    assert |r.countries| == 2 by {
      DistinctNamesCount(r.countries);
      assert "FR" != "" by { assert |"FR"| != |""|; }
    }
    EntryOf(root, r, "FR");
    EntryOf(root, r, "");
  }

  /** Every country of the feed has an entry holding its mirrors. */
  lemma EntryOf(root: ArchLinuxMirrors, r: ArchMirrors, name: string)
    requires Normalised(root, r) && name in RawCountries(root.urls)
    ensures exists i :: 0 <= i < |r.countries| && r.countries[i].country == name &&
                        r.countries[i].mirrors == MirrorsOf(root.urls, name)
  {
    assert name in Names(r.countries);
    var c :| c in r.countries && c.country == name;
    var i :| 0 <= i < |r.countries| && r.countries[i] == c;
  }

  lemma ExampleFeed(a: RawUrl, b: RawUrl, c: RawUrl)
    requires a.country == "FR" && b.country == "FR" && c.country == ""
    ensures RawCountries([a, b, c]) == {"FR", ""}
    ensures MirrorsOf([a, b, c], "FR") == [ToMirror(a), ToMirror(b)]
    ensures MirrorsOf([a, b, c], "") == [ToMirror(c)]
  {
    assert [a][..0] == [] && [a, b][..1] == [a] && [a, b, c][..2] == [a, b];
    assert MirrorsOf([], "FR") == [] && MirrorsOf([], "") == [];
    assert "FR" != "" by { assert |"FR"| != |""|; }
    assert MirrorsOf([a], "FR") == [ToMirror(a)] && MirrorsOf([a], "") == [];
    assert MirrorsOf([a, b], "FR") == [ToMirror(a), ToMirror(b)] && MirrorsOf([a, b], "") == [];
  }

  lemma {:induction false} DistinctNamesCount(countries: seq<Url>)
    requires NamesDistinct(countries)
    ensures |Names(countries)| == |countries|
    decreases |countries|
  {
    if countries != [] {
      NamesSplit(countries);
      DistinctNamesCount(countries[1..]);
    }
  }
}
