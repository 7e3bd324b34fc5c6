/**
 * Citations attached to an answer chunk, and the per-chunk map from a
 * citation URL to the title shown for it.
 *
 * The map is a JavaScript `Map`: its entries keep the order in which each
 * key was first set, and setting an existing key overwrites its value in
 * place. It is modelled as a sequence of entries with distinct URLs.
 */
module Citations {
  import opened Wrappers

  /** One citation record from the upstream answer stream. */
  datatype Citation = Citation(url: string, title: Option<string>)

  /** One (url, title) entry of the title map. */
  datatype Entry = Entry(url: string, title: string)

  /** The title shown for a citation: its own title, unless absent or empty. */
  function DisplayTitle(c: Citation): (t: string)
    ensures t != ""
    ensures t == "Source" || c.title == Some(t)
    ensures c.title.Some? && c.title.value != "" ==> t == c.title.value
  {
    match c.title
    case Some(s) => if s != "" then s else "Source"
    case None => "Source"
  }

  ghost predicate HasKey(m: seq<Entry>, url: string) {
    exists i :: 0 <= i < |m| && m[i].url == url
  }

  ghost predicate DistinctKeys(m: seq<Entry>) {
    forall i, j :: 0 <= i < j < |m| ==> m[i].url != m[j].url
  }

  /** `Map.prototype.set`: overwrite the entry for `url` where it stands, or append one. */
  function Set(m: seq<Entry>, url: string, title: string): seq<Entry> {
    if m == [] then [Entry(url, title)]
    else if m[0].url == url then [Entry(url, title)] + m[1..]
    else [m[0]] + Set(m[1..], url, title)
  }

  /**
   * After setting, the map holds `Entry(url, title)`; every other entry is
   * kept where it was; the length grows by one exactly when `url` was not a
   * key, and then the new entry is last; distinct keys stay distinct.
   */
  lemma SetSpec(m: seq<Entry>, url: string, title: string)
    ensures var r := Set(m, url, title);
      && |r| == (if HasKey(m, url) then |m| else |m| + 1)
      && Entry(url, title) in r
      && (forall i :: 0 <= i < |m| ==> r[i].url == m[i].url)
      && (forall i :: 0 <= i < |m| && m[i].url != url ==> r[i] == m[i])
      && (forall i :: 0 <= i < |r| ==> r[i] == Entry(url, title) || (i < |m| && r[i] == m[i]))
      && (!HasKey(m, url) ==> r == m + [Entry(url, title)])
      && (DistinctKeys(m) ==> DistinctKeys(r))
  {
    SetLength(m, url, title);
    SetEntries(m, url, title);
    if !HasKey(m, url) {
      SetAppends(m, url, title);
    }
    if DistinctKeys(m) {
      SetDistinct(m, url, title);
    }
  }

  lemma HasKeyTail(m: seq<Entry>, url: string)
    requires m != [] && m[0].url != url
    ensures HasKey(m, url) <==> HasKey(m[1..], url)
  {
    if HasKey(m, url) {
      var i :| 0 <= i < |m| && m[i].url == url;
      assert m[1..][i - 1].url == url;
    }
    if HasKey(m[1..], url) {
      var i :| 0 <= i < |m| - 1 && m[1..][i].url == url;
      assert m[i + 1].url == url;
    }
  }

  lemma {:induction false} SetLength(m: seq<Entry>, url: string, title: string)
    ensures |Set(m, url, title)| == if HasKey(m, url) then |m| else |m| + 1
  {
    if m != [] {
      if m[0].url == url {
        assert HasKey(m, url);
      } else {
        HasKeyTail(m, url);
        SetLength(m[1..], url, title);
      }
    }
  }

  lemma {:induction false} SetEntries(m: seq<Entry>, url: string, title: string)
    ensures var r := Set(m, url, title);
      && |r| >= |m|
      && Entry(url, title) in r
      && (forall i :: 0 <= i < |m| ==> r[i].url == m[i].url)
      && (forall i :: 0 <= i < |m| && m[i].url != url ==> r[i] == m[i])
      && (forall i :: 0 <= i < |r| ==> r[i] == Entry(url, title) || (i < |m| && r[i] == m[i]))
  {
    if m != [] && m[0].url != url {
      var rest := Set(m[1..], url, title);
      SetEntries(m[1..], url, title);
      var r := [m[0]] + rest;
      assert Set(m, url, title) == r;
      assert forall i :: 1 <= i < |r| ==> r[i] == rest[i - 1];
      assert forall i :: 1 <= i < |m| ==> m[i] == m[1..][i - 1];
    }
  }

  lemma {:induction false} SetAppends(m: seq<Entry>, url: string, title: string)
    requires !HasKey(m, url)
    ensures Set(m, url, title) == m + [Entry(url, title)]
  {
    if m != [] {
      assert m[0].url != url;
      HasKeyTail(m, url);
      SetAppends(m[1..], url, title);
      assert m == [m[0]] + m[1..];
    }
  }

  lemma SetDistinct(m: seq<Entry>, url: string, title: string)
    requires DistinctKeys(m)
    ensures DistinctKeys(Set(m, url, title))
  {
    var r := Set(m, url, title);
    SetLength(m, url, title);
    SetEntries(m, url, title);
    if !HasKey(m, url) {
      SetAppends(m, url, title);
      forall i, j | 0 <= i < j < |r|
        ensures r[i].url != r[j].url
      {
        if j == |m| {
          assert r[i] == m[i];
          assert !(m[i].url == url);
        }
      }
    }
  }

  /** The title map built from a chunk's citations, in list order. */
  function TitleMap(cs: seq<Citation>): seq<Entry> {
    if cs == [] then []
    else
      var last := cs[|cs| - 1];
      Set(TitleMap(cs[..|cs| - 1]), last.url, DisplayTitle(last))
  }

  /** The title map has one entry per URL. */
  lemma {:induction false} TitleMapDistinct(cs: seq<Citation>)
    ensures DistinctKeys(TitleMap(cs))
  {
    if cs != [] {
      var last := cs[|cs| - 1];
      TitleMapDistinct(cs[..|cs| - 1]);
      SetSpec(TitleMap(cs[..|cs| - 1]), last.url, DisplayTitle(last));
    }
  }

  /** `e` is the entry some citation of `cs` would set. */
  ghost predicate EntryOf(cs: seq<Citation>, e: Entry) {
    exists j :: 0 <= j < |cs| && e == Entry(cs[j].url, DisplayTitle(cs[j]))
  }

  /** Every entry of the title map is a citation's URL paired with that citation's display title. */
  lemma {:induction false} TitleMapEntries(cs: seq<Citation>)
    ensures forall e :: e in TitleMap(cs) ==> EntryOf(cs, e)
  {
    if cs != [] {
      var prefix, last := cs[..|cs| - 1], cs[|cs| - 1];
      var m := TitleMap(prefix);
      TitleMapEntries(prefix);
      SetEntries(m, last.url, DisplayTitle(last));
      forall e | e in TitleMap(cs)
        ensures EntryOf(cs, e)
      {
        var r := Set(m, last.url, DisplayTitle(last));
        var i :| 0 <= i < |r| && r[i] == e;
        if e == Entry(last.url, DisplayTitle(last)) {
          assert cs[|cs| - 1] == last;
        } else {
          assert e in m;
          var j :| 0 <= j < |prefix| && e == Entry(prefix[j].url, DisplayTitle(prefix[j]));
          assert cs[j] == prefix[j];
        }
      }
    }
  }

  ghost predicate Cites(cs: seq<Citation>, url: string) {
    exists j :: 0 <= j < |cs| && cs[j].url == url
  }

  /** Citation `j` is the last one in `cs` with its URL. */
  ghost predicate LastWithItsUrl(cs: seq<Citation>, j: int) {
    0 <= j < |cs| && forall k :: j < k < |cs| ==> cs[k].url != cs[j].url
  }

  /** Some citation before position `j` has URL `url`. */
  ghost predicate CitedBefore(cs: seq<Citation>, url: string, j: int) {
    exists k :: 0 <= k < j && k < |cs| && cs[k].url == url
  }

  /** Setting `url` adds exactly the key `url`. */
  lemma SetKeys(m: seq<Entry>, url: string, title: string, u: string)
    ensures HasKey(Set(m, url, title), u) <==> HasKey(m, u) || u == url
  {
    SetSpec(m, url, title);
    var r := Set(m, url, title);
    if HasKey(r, u) {
      var i :| 0 <= i < |r| && r[i].url == u;
      if i < |m| && r[i] == m[i] {
        assert HasKey(m, u);
      }
    }
    if HasKey(m, u) {
      var i :| 0 <= i < |m| && m[i].url == u;
      assert r[i].url == u;
    }
    if u == url {
      var i :| 0 <= i < |r| && r[i] == Entry(url, title);
      assert r[i].url == u;
    }
  }

  /** Citing one more URL adds exactly that URL to the cited ones. */
  lemma CitesSnoc(cs: seq<Citation>, u: string)
    requires cs != []
    ensures Cites(cs, u) <==> Cites(cs[..|cs| - 1], u) || u == cs[|cs| - 1].url
  {
    var prefix := cs[..|cs| - 1];
    if Cites(cs, u) {
      var j :| 0 <= j < |cs| && cs[j].url == u;
      if j < |cs| - 1 {
        assert prefix[j].url == u;
      }
    }
    if Cites(prefix, u) {
      var j :| 0 <= j < |prefix| && prefix[j].url == u;
      assert cs[j].url == u;
    }
  }

  /** The map has an entry for a URL exactly when some citation has that URL. */
  lemma {:induction false} TitleMapKeys(cs: seq<Citation>)
    ensures forall u :: HasKey(TitleMap(cs), u) <==> Cites(cs, u)
  {
    if cs != [] {
      var n := |cs|;
      var prefix := cs[..n - 1];
      TitleMapKeys(prefix);
      forall u
        ensures HasKey(TitleMap(cs), u) <==> Cites(cs, u)
      {
        SetKeys(TitleMap(prefix), cs[n - 1].url, DisplayTitle(cs[n - 1]), u);
        CitesSnoc(cs, u);
      }
    }
  }

  /** The last citation with a given URL supplies that URL's title (last write wins). */
  lemma {:induction false} TitleMapLastWins(cs: seq<Citation>)
    ensures forall j :: LastWithItsUrl(cs, j) ==> Entry(cs[j].url, DisplayTitle(cs[j])) in TitleMap(cs)
  {
    if cs != [] {
      var prefix, c := cs[..|cs| - 1], cs[|cs| - 1];
      TitleMapLastWins(prefix);
      assert cs == prefix + [c];
      forall j | LastWithItsUrl(cs, j)
        ensures Entry(cs[j].url, DisplayTitle(cs[j])) in TitleMap(cs)
      {
        LastWinsStep(prefix, c, TitleMap(prefix), j);
      }
    }
  }

  /** One step of the last-wins proof: appending citation `c` and setting its URL. */
  lemma LastWinsStep(prefix: seq<Citation>, c: Citation, m': seq<Entry>, j: int)
    requires forall k :: LastWithItsUrl(prefix, k) ==> Entry(prefix[k].url, DisplayTitle(prefix[k])) in m'
    requires LastWithItsUrl(prefix + [c], j)
    ensures Entry((prefix + [c])[j].url, DisplayTitle((prefix + [c])[j])) in Set(m', c.url, DisplayTitle(c))
  {
    var cs := prefix + [c];
    SetEntries(m', c.url, DisplayTitle(c));
    if j < |prefix| {
      assert cs[j] == prefix[j];
      assert cs[|prefix|].url != cs[j].url;
      assert LastWithItsUrl(prefix, j) by {
        forall k | j < k < |prefix| ensures prefix[k].url != prefix[j].url {
          assert cs[k] == prefix[k];
        }
      }
      var m := Set(m', c.url, DisplayTitle(c));
      var i :| 0 <= i < |m'| && m'[i] == Entry(cs[j].url, DisplayTitle(cs[j]));
      assert m[i] == m'[i];
    }
  }

  /** Every occurrence of a later key's URL is preceded by one of each earlier key's URL. */
  ghost predicate KeysInCitationOrder(cs: seq<Citation>, m: seq<Entry>) {
    forall i1, i2, j2 :: 0 <= i1 < i2 < |m| && 0 <= j2 < |cs| && cs[j2].url == m[i2].url
      ==> CitedBefore(cs, m[i1].url, j2)
  }

  /** One step of the order proof: appending citation `c` and setting its URL. */
  lemma OrderStep(prefix: seq<Citation>, c: Citation, m': seq<Entry>, i1: int, i2: int, j2: int)
    requires KeysInCitationOrder(prefix, m')
    requires forall u {:trigger HasKey(m', u)} {:trigger Cites(prefix, u)} :: HasKey(m', u) <==> Cites(prefix, u)
    requires 0 <= i1 < i2 < |Set(m', c.url, DisplayTitle(c))| && 0 <= j2 <= |prefix|
    requires (prefix + [c])[j2].url == Set(m', c.url, DisplayTitle(c))[i2].url
    ensures CitedBefore(prefix + [c], Set(m', c.url, DisplayTitle(c))[i1].url, j2)
  {
    var cs := prefix + [c];
    var m := Set(m', c.url, DisplayTitle(c));
    SetSpec(m', c.url, DisplayTitle(c));
    assert i1 < |m'| && m[i1].url == m'[i1].url;
    if j2 == |prefix| {
      assert HasKey(m', m'[i1].url);
      var k :| 0 <= k < |prefix| && prefix[k].url == m'[i1].url;
      assert cs[k].url == m[i1].url;
    } else {
      assert prefix[j2].url == cs[j2].url;
      assert Cites(prefix, cs[j2].url);
      assert HasKey(m', cs[j2].url);
      assert i2 < |m'|;
      assert m[i2].url == m'[i2].url;
      assert CitedBefore(prefix, m'[i1].url, j2);
      var k :| 0 <= k < j2 && k < |prefix| && prefix[k].url == m'[i1].url;
      assert cs[k].url == m[i1].url;
    }
  }

  /**
   * Keys keep first-appearance order: wherever the URL of a later key is
   * cited, the URL of every earlier key has already been cited.
   */
  lemma {:induction false} TitleMapFirstAppearanceOrder(cs: seq<Citation>)
    ensures forall i1, i2, j2 :: 0 <= i1 < i2 < |TitleMap(cs)| && 0 <= j2 < |cs| && cs[j2].url == TitleMap(cs)[i2].url
              ==> CitedBefore(cs, TitleMap(cs)[i1].url, j2)
  {
    if cs != [] {
      var prefix := cs[..|cs| - 1];
      TitleMapFirstAppearanceOrder(prefix);
      TitleMapKeys(prefix);
      var c := cs[|cs| - 1];
      assert cs == prefix + [c];
      assert TitleMap(cs) == Set(TitleMap(prefix), c.url, DisplayTitle(c));
      forall i1, i2, j2 | 0 <= i1 < i2 < |TitleMap(cs)| && 0 <= j2 < |cs| && cs[j2].url == TitleMap(cs)[i2].url
        ensures CitedBefore(cs, TitleMap(cs)[i1].url, j2)
      {
        OrderStep(prefix, c, TitleMap(prefix), i1, i2, j2);
      }
    }
  }
}
