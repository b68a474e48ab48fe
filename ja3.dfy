/** JA3 fingerprinting of a captured ClientHello (hello-snapshot/src/ja3.rs):
    a cursor-driven parser that keeps the legacy version, the cipher
    suites, the extension types, the supported groups and the EC point
    formats, dropping GREASE values, and the fingerprint string built from
    them. */
module Ja3 {
  import opened Bytes
  import opened Text
  import W = Wrappers

  /** `is_grease`: the sixteen reserved GREASE codepoints of RFC 8701, section 2. */
  predicate IsGrease(u: uint16)
  {
    u in {0x0a0a, 0x1a1a, 0x2a2a, 0x3a3a, 0x4a4a, 0x5a5a, 0x6a6a, 0x7a7a,
          0x8a8a, 0x9a9a, 0xaaaa, 0xbaba, 0xcaca, 0xdada, 0xeaea, 0xfafa}
  }

  /** A codepoint is GREASE exactly when both its bytes are equal and end in the nibble 0xa. */
  lemma GreaseShape(u: uint16)
    ensures IsGrease(u) <==> (u as int / 256 == u as int % 256 && u as int % 16 == 0xa)
  {
    if IsGrease(u) {
      GreaseDigits(u);
    }
    if u as int / 256 == u as int % 256 && u as int % 16 == 0xa {
      GreaseOfDigits(u);
    }
  }

  lemma GreaseDigits(u: uint16)
    requires IsGrease(u)
    ensures u as int / 256 == u as int % 256 && u as int % 16 == 0xa
  {
    var k := GreaseIndex(u);
    DivModUnique(u as int, 256, 16 * k + 10, 16 * k + 10);
    DivModUnique(u as int, 16, 257 * k + 160, 10);
  }

  lemma GreaseOfDigits(u: uint16)
    requires u as int / 256 == u as int % 256 && u as int % 16 == 0xa
    ensures IsGrease(u)
  {
    var lo := u as int % 256;
    assert u as int == 257 * lo;
    GreaseFromNibble(lo);
  }

  /** The position of a GREASE codepoint in the list 0x0a0a, 0x1a1a, ... */
  lemma GreaseIndex(u: uint16) returns (k: nat)
    requires IsGrease(u)
    ensures k < 16 && u as int == 257 * (16 * k + 10)
  {
    if u == 0x0a0a { k := 0; } else if u == 0x1a1a { k := 1; }
    else if u == 0x2a2a { k := 2; } else if u == 0x3a3a { k := 3; }
    else if u == 0x4a4a { k := 4; } else if u == 0x5a5a { k := 5; }
    else if u == 0x6a6a { k := 6; } else if u == 0x7a7a { k := 7; }
    else if u == 0x8a8a { k := 8; } else if u == 0x9a9a { k := 9; }
    else if u == 0xaaaa { k := 10; } else if u == 0xbaba { k := 11; }
    else if u == 0xcaca { k := 12; } else if u == 0xdada { k := 13; }
    else if u == 0xeaea { k := 14; } else { k := 15; }
  }

  lemma GreaseFromNibble(lo: int)
    requires 0 <= lo < 256 && lo % 16 == 0xa
    ensures IsGrease((257 * lo) as uint16)
  {
    var k := lo / 16;
    assert lo == 16 * k + 10;
    assert 0 <= k < 16;
    if k < 4 {
      assert k == 0 || k == 1 || k == 2 || k == 3;
    } else if k < 8 {
      assert k == 4 || k == 5 || k == 6 || k == 7;
    } else if k < 12 {
      assert k == 8 || k == 9 || k == 10 || k == 11;
    } else {
      assert k == 12 || k == 13 || k == 14 || k == 15;
    }
  }

  /** The non-GREASE values of a list, in order. */
  function FilterGrease(xs: seq<uint16>): (r: seq<uint16>)
    ensures |r| <= |xs|
    ensures forall i :: 0 <= i < |r| ==> !IsGrease(r[i])
    ensures forall x :: x in r <==> x in xs && !IsGrease(x)
  {
    if xs == [] then []
    else
      var rest := FilterGrease(xs[1..]);
      assert forall x :: x in xs <==> x == xs[0] || x in xs[1..];
      if IsGrease(xs[0]) then rest else [xs[0]] + rest
  }

  // ---------------------------------------------------------------------------
  // What `parse_client_hello` computes.
  // ---------------------------------------------------------------------------

  /** `ParsedClientHello`. */
  datatype ParsedClientHello = ParsedClientHello(
    version: uint16,
    cipherSuites: seq<uint16>,
    extensions: seq<uint16>,
    supportedGroups: seq<uint16>,
    ecPointFormats: seq<byte>)

  /** The three lists the extension walk collects. */
  datatype ExtLists = ExtLists(types: seq<uint16>, groups: seq<uint16>, formats: seq<byte>)

  /** A result of the parser: a value, an error message, or a panic on an
      out-of-bounds index (Rust aborts the thread; nothing is returned). */
  datatype Outcome<+T> = Ok(value: T) | Err(msg: string) | Panic

  /** The suite loop from `i` up to `end`: one big-endian word per step of
      two, GREASE dropped. A read of the byte after the last one of the
      buffer panics; that happens exactly when the block has an odd length
      and ends the buffer (`SuiteScanPanics`). */
  function SuiteScan(raw: seq<byte>, i: nat, end: nat): W.Option<seq<uint16>>
    requires end <= |raw| && i <= end + 1
    decreases end + 1 - i
  {
    if i >= end then W.Some([])
    else if i + 1 >= |raw| then W.None
    else
      var cs := Be16At(raw, i);
      var rest := SuiteScan(raw, i + 2, end);
      if rest.None? then W.None else W.Some((if IsGrease(cs) then [] else [cs]) + rest.value)
  }

  /** `xs` in front of the rest of a scan, unless the rest panicked. */
  function Prepend(xs: seq<uint16>, rest: W.Option<seq<uint16>>): W.Option<seq<uint16>>
  {
    if rest.None? then W.None else W.Some(xs + rest.value)
  }

  lemma PrependNothing(rest: W.Option<seq<uint16>>)
    ensures Prepend([], rest) == rest
  {
    if rest.Some? {
      assert [] + rest.value == rest.value;
    }
  }

  lemma PrependTwice(xs: seq<uint16>, ys: seq<uint16>, rest: W.Option<seq<uint16>>)
    ensures Prepend(xs, Prepend(ys, rest)) == Prepend(xs + ys, rest)
  {
    if rest.Some? {
      assert xs + (ys + rest.value) == (xs + ys) + rest.value;
    }
  }

  /** The supported-groups loop: words from `gi` while a whole word lies before `lim`. */
  function GroupList(raw: seq<byte>, gi: nat, lim: nat): seq<uint16>
    requires lim <= |raw|
    decreases lim - gi
  {
    if gi + 1 >= lim then []
    else
      var g := Be16At(raw, gi);
      (if IsGrease(g) then [] else [g]) + GroupList(raw, gi + 2, lim)
  }

  function Min(a: int, b: int): int
  {
    if a <= b then a else b
  }

  /** The groups one extension contributes: those of a supported_groups
      (0x000a) extension, bounded by its own list length and by its data. */
  function GroupsOf(raw: seq<byte>, typ: uint16, ds: nat, de: nat): seq<uint16>
    requires ds <= de <= |raw|
  {
    if typ == 0x000a && de - ds >= 2 then GroupList(raw, ds + 2, Min(ds + 2 + Be16At(raw, ds) as int, de))
    else []
  }

  /** The formats one extension contributes: those of an ec_point_formats
      (0x000b) extension, bounded by its own count and by its data. */
  function FormatsOf(raw: seq<byte>, typ: uint16, ds: nat, de: nat): seq<byte>
    requires ds <= de <= |raw|
  {
    if typ == 0x000b && de - ds >= 1 then raw[ds + 1..Min(ds + 1 + raw[ds] as int, de)] else []
  }

  /** The extension loop from `i` up to `end`: each entry is a type, a
      length and data; an entry that does not fit stops the walk. */
  function ExtScan(raw: seq<byte>, i: nat, end: nat): ExtLists
    requires end <= |raw|
    decreases end - i
  {
    if i + 4 > end then ExtLists([], [], [])
    else
      var typ := Be16At(raw, i);
      var ds := i + 4;
      var de := ds + Be16At(raw, i + 2) as int;
      if de > end then ExtLists([], [], [])
      else
        var rest := ExtScan(raw, de, end);
        ExtLists((if IsGrease(typ) then [] else [typ]) + rest.types,
                 GroupsOf(raw, typ, ds, de) + rest.groups,
                 FormatsOf(raw, typ, ds, de) + rest.formats)
  }

  /** Everything after the suites: compression methods, then the extensions. */
  function ParseTail(raw: seq<byte>, version: uint16, suites: seq<uint16>, idx: nat): Outcome<ParsedClientHello>
  {
    if |raw| <= idx then Err("no compression methods")
    else
      var e := idx + 1 + raw[idx] as int;
      if |raw| < e then Err("compression methods truncated")
      else ParseExtensions(raw, version, suites, e)
  }

  /** The extensions block at `e`: none when its length is missing, an error
      when it runs past the end, otherwise what the extension walk collects. */
  function ParseExtensions(raw: seq<byte>, version: uint16, suites: seq<uint16>, e: nat): Outcome<ParsedClientHello>
    requires e <= |raw|
  {
    if |raw| < e + 2 then Ok(ParsedClientHello(version, suites, [], [], []))
    else
      var start := e + 2;
      var end := start + Be16At(raw, e) as int;
      if |raw| < end then Err("extensions truncated")
      else
        var scan := ExtScan(raw, start, end);
        Ok(ParsedClientHello(version, suites, scan.types, scan.groups, scan.formats))
  }

  /** `parse_client_hello`, as a function of the captured bytes. The record
      and handshake lengths are not checked; the body is taken to start at
      byte 9. */
  function ParseSpec(raw: seq<byte>): Outcome<ParsedClientHello>
  {
    if |raw| < 5 then Err("too short for record")
    else if raw[0] != 22 then Err("not a handshake record")
    else if |raw| < 9 then Err("too short for handshake")
    else if raw[5] != 0x01 then Err("not a ClientHello handshake")
    else if |raw| < 11 then Err("no legacy_version")
    else if |raw| <= 43 then Err("unexpected end after random")
    else
      var csAt := 44 + raw[43] as int;
      if |raw| < csAt + 2 then Err("no cipher suites length")
      else
        var start := csAt + 2;
        var end := start + Be16At(raw, csAt) as int;
        if |raw| < end then Err("cipher suites truncated")
        else
          var suites := SuiteScan(raw, start, end);
          if suites.None? then Panic
          else ParseTail(raw, Be16At(raw, 9), suites.value, end)
  }

  // ---------------------------------------------------------------------------
  // The parser.
  // ---------------------------------------------------------------------------

  /** The `while cs_idx < idx + cs_len` loop. */
  method ScanSuites(raw: seq<byte>, start: nat, end: nat) returns (r: W.Option<seq<uint16>>)
    requires end <= |raw| && start <= end
    ensures r == SuiteScan(raw, start, end)
  {
    var suites: seq<uint16> := [];
    var csIdx := start;
    PrependNothing(SuiteScan(raw, start, end));
    while csIdx < end
      invariant start <= csIdx <= end + 1
      invariant SuiteScan(raw, start, end) == Prepend(suites, SuiteScan(raw, csIdx, end))
      decreases end - csIdx
    {
      if csIdx + 1 >= |raw| {
        return W.None;
      }
      var cs := Be16At(raw, csIdx);
      ghost var kept := if IsGrease(cs) then [] else [cs];
      PrependTwice(suites, kept, SuiteScan(raw, csIdx + 2, end));
      if !IsGrease(cs) {
        suites := suites + [cs];
      } else {
        assert suites + [] == suites;
      }
      csIdx := csIdx + 2;
    }
    assert suites + [] == suites;
    return W.Some(suites);
  }

  /** The `while gi + 1 < data_start + 2 + list_len && gi + 1 < data_end` loop. */
  method CollectGroups(raw: seq<byte>, from: nat, lim: nat) returns (groups: seq<uint16>)
    requires lim <= |raw|
    ensures groups == GroupList(raw, from, lim)
  {
    groups := [];
    var gi := from;
    while gi + 1 < lim
      invariant GroupList(raw, from, lim) == groups + GroupList(raw, gi, lim)
      decreases lim - gi
    {
      var g := Be16At(raw, gi);
      ghost var kept := if IsGrease(g) then [] else [g];
      ghost var rest := GroupList(raw, gi + 2, lim);
      assert GroupList(raw, gi, lim) == kept + rest;
      assert groups + (kept + rest) == (groups + kept) + rest;
      if !IsGrease(g) {
        groups := groups + [g];
      } else {
        assert groups + [] == groups;
      }
      gi := gi + 2;
    }
  }

  /** The `for _ in 0..list_len` loop that copies point formats until the data ends. */
  method CollectFormats(raw: seq<byte>, from: nat, count: nat, de: nat) returns (formats: seq<byte>)
    requires from <= de <= |raw|
    ensures formats == raw[from..Min(from + count, de)]
  {
    formats := [];
    var pi := from;
    for k := 0 to count
      invariant pi == from + k && pi <= de
      invariant formats == raw[from..pi]
    {
      if pi >= de {
        break;
      }
      formats := formats + [raw[pi]];
      pi := pi + 1;
    }
  }

  /** The `match ext_type` of one extension: the groups and formats it adds. */
  method ScanEntry(raw: seq<byte>, typ: uint16, ds: nat, de: nat) returns (gs: seq<uint16>, fs: seq<byte>)
    requires ds <= de <= |raw|
    ensures gs == GroupsOf(raw, typ, ds, de) && fs == FormatsOf(raw, typ, ds, de)
  {
    gs, fs := [], [];
    var len := de - ds;
    if typ == 0x000a {
      if len >= 2 {
        var listLen := Be16At(raw, ds) as int;
        gs := CollectGroups(raw, ds + 2, Min(ds + 2 + listLen, de));
      }
    } else if typ == 0x000b {
      if len >= 1 {
        fs := CollectFormats(raw, ds + 1, raw[ds] as int, de);
      }
    }
  }

  /** Lists collected so far, followed by those of the rest of the walk. */
  function Then(acc: ExtLists, rest: ExtLists): ExtLists
  {
    ExtLists(acc.types + rest.types, acc.groups + rest.groups, acc.formats + rest.formats)
  }

  lemma ThenNothing(rest: ExtLists)
    ensures Then(ExtLists([], [], []), rest) == rest
  {
    assert [] + rest.types == rest.types && [] + rest.groups == rest.groups;
    assert [] + rest.formats == rest.formats;
  }

  lemma ThenTwice(a: ExtLists, b: ExtLists, rest: ExtLists)
    ensures Then(a, Then(b, rest)) == Then(Then(a, b), rest)
  {
    assert a.types + (b.types + rest.types) == (a.types + b.types) + rest.types;
    assert a.groups + (b.groups + rest.groups) == (a.groups + b.groups) + rest.groups;
    assert a.formats + (b.formats + rest.formats) == (a.formats + b.formats) + rest.formats;
  }

  /** The walk's first step, when the first entry fits. */
  lemma ExtScanStep(raw: seq<byte>, i: nat, end: nat)
    requires end <= |raw| && i + 4 <= end && i + 4 + Be16At(raw, i + 2) as int <= end
    ensures var typ, ds := Be16At(raw, i), i + 4;
      var de := ds + Be16At(raw, i + 2) as int;
      ExtScan(raw, i, end)
        == Then(ExtLists(if IsGrease(typ) then [] else [typ], GroupsOf(raw, typ, ds, de), FormatsOf(raw, typ, ds, de)),
                ExtScan(raw, de, end))
  {
  }

  /** The `while exts_idx + 4 <= end_exts` loop. */
  method ScanExtensions(raw: seq<byte>, start: nat, end: nat) returns (r: ExtLists)
    requires start <= end <= |raw|
    ensures r == ExtScan(raw, start, end)
  {
    var extensions, groups, formats := [], [], [];
    var i := start;
    ThenNothing(ExtScan(raw, start, end));
    while i + 4 <= end
      invariant start <= i
      invariant ExtScan(raw, start, end) == Then(ExtLists(extensions, groups, formats), ExtScan(raw, i, end))
      decreases end - i
    {
      var typ := Be16At(raw, i);
      var ds := i + 4;
      var de := ds + Be16At(raw, i + 2) as int;
      if de > end {
        break;
      }
      ghost var acc := ExtLists(extensions, groups, formats);
      if !IsGrease(typ) {
        extensions := extensions + [typ];
      }
      var gs, fs := ScanEntry(raw, typ, ds, de);
      groups := groups + gs;
      formats := formats + fs;
      ghost var entry := ExtLists(if IsGrease(typ) then [] else [typ], gs, fs);
      ExtScanStep(raw, i, end);
      ThenTwice(acc, entry, ExtScan(raw, de, end));
      assert Then(acc, entry) == ExtLists(extensions, groups, formats);
      i := de;
    }
    assert ExtScan(raw, i, end) == ExtLists([], [], []);
    assert Then(ExtLists(extensions, groups, formats), ExtLists([], [], []))
        == ExtLists(extensions, groups, formats);
    return ExtLists(extensions, groups, formats);
  }

  /** `parse_client_hello`. */
  method ParseClientHello(raw: seq<byte>) returns (r: Outcome<ParsedClientHello>)
    ensures r == ParseSpec(raw)
  {
    if |raw| < 5 { return Err("too short for record"); }
    if raw[0] != 22 { return Err("not a handshake record"); }
    if |raw| < 9 { return Err("too short for handshake"); }
    if raw[5] != 0x01 { return Err("not a ClientHello handshake"); }
    var bodyOffset := 9;
    if |raw| < bodyOffset + 2 { return Err("no legacy_version"); }
    var version := Be16At(raw, bodyOffset);
    var idx := bodyOffset + 2 + 32;
    if |raw| <= idx { return Err("unexpected end after random"); }
    var sidLen := raw[idx] as int;
    idx := idx + 1 + sidLen;
    if |raw| < idx + 2 { return Err("no cipher suites length"); }
    var csLen := Be16At(raw, idx) as int;
    idx := idx + 2;
    if |raw| < idx + csLen { return Err("cipher suites truncated"); }
    var suites := ScanSuites(raw, idx, idx + csLen);
    if suites.None? {
      return Panic;
    }
    idx := idx + csLen;
    r := ParseRest(raw, version, suites.value, idx);
  }

  /** The compression methods and the extensions, after the suites. */
  method ParseRest(raw: seq<byte>, version: uint16, suites: seq<uint16>, idx0: nat)
    returns (r: Outcome<ParsedClientHello>)
    ensures r == ParseTail(raw, version, suites, idx0)
  {
    var idx := idx0;
    if |raw| <= idx { return Err("no compression methods"); }
    var cmLen := raw[idx] as int;
    idx := idx + 1 + cmLen;
    if |raw| < idx { return Err("compression methods truncated"); }
    r := ParseExts(raw, version, suites, idx);
  }

  /** The extensions part of `parse_client_hello`. */
  method ParseExts(raw: seq<byte>, version: uint16, suites: seq<uint16>, e: nat)
    returns (r: Outcome<ParsedClientHello>)
    requires e <= |raw|
    ensures r == ParseExtensions(raw, version, suites, e)
  {
    if |raw| < e + 2 {
      return Ok(ParsedClientHello(version, suites, [], [], []));
    }
    var extsLen := Be16At(raw, e) as int;
    var idx := e + 2;
    if |raw| < idx + extsLen { return Err("extensions truncated"); }
    var scan := ScanExtensions(raw, idx, idx + extsLen);
    r := Ok(ParsedClientHello(version, suites, scan.types, scan.groups, scan.formats));
  }
  // ---------------------------------------------------------------------------
  // What the parse means.
  // ---------------------------------------------------------------------------

  predicate NoGrease(xs: seq<uint16>)
  {
    forall k :: 0 <= k < |xs| ==> !IsGrease(xs[k])
  }

  lemma NoGreaseAppend(xs: seq<uint16>, ys: seq<uint16>)
    requires NoGrease(xs) && NoGrease(ys)
    ensures NoGrease(xs + ys)
  {
    forall k | 0 <= k < |xs + ys| ensures !IsGrease((xs + ys)[k]) {
      if k >= |xs| {
        assert (xs + ys)[k] == ys[k - |xs|];
      }
    }
  }

  lemma FilterGreaseCons(x: uint16, ys: seq<uint16>)
    ensures FilterGrease([x] + ys) == (if IsGrease(x) then [] else [x]) + FilterGrease(ys)
  {
    assert ([x] + ys)[0] == x && ([x] + ys)[1..] == ys;
  }

  /** The first word of `raw[i..w]`, kept unless it is GREASE, then the rest. */
  lemma KeptWordsStep(raw: seq<byte>, i: nat, w: nat)
    requires i + 2 <= w <= |raw| && (w - i) % 2 == 0
    ensures FilterGrease(Words(raw[i..w]))
         == (if IsGrease(Be16At(raw, i)) then [] else [Be16At(raw, i)]) + FilterGrease(Words(raw[i + 2..w]))
  {
    WordsStep(raw, i, w);
    FilterGreaseCons(Be16At(raw, i), Words(raw[i + 2..w]));
  }

  /** The suite loop reads the words of `raw[i..w]` and drops GREASE, where
      `w` is the block's end, or the byte after it when the block has an odd
      length: that last word takes the byte after the block. */
  lemma {:induction false} SuiteScanWords(raw: seq<byte>, i: nat, end: nat, w: nat)
    requires end <= w <= end + 1 && i <= w <= |raw| && (w - i) % 2 == 0
    ensures SuiteScan(raw, i, end) == W.Some(FilterGrease(Words(raw[i..w])))
    decreases w - i
  {
    if i == w {
      assert raw[i..w] == [];
    } else {
      SuiteScanWords(raw, i + 2, end, w);
      KeptWordsStep(raw, i, w);
    }
  }

  /** The suite loop panics exactly when its block has an odd length and ends the input. */
  lemma {:induction false} SuiteScanPanics(raw: seq<byte>, i: nat, end: nat)
    requires i <= end <= |raw|
    ensures SuiteScan(raw, i, end).None? <==> (end - i) % 2 == 1 && end == |raw|
    decreases end - i
  {
    if i + 2 <= end {
      SuiteScanPanics(raw, i + 2, end);
    }
  }

  /** The groups loop reads the whole big-endian words before `lim`, that
      is of `raw[gi..w]` with `w` the last even offset from `gi` up to `lim`,
      and drops GREASE. */
  lemma {:induction false} GroupListWords(raw: seq<byte>, gi: nat, lim: nat, w: nat)
    requires gi <= w <= lim <= |raw| && lim <= w + 1 && (w - gi) % 2 == 0
    ensures GroupList(raw, gi, lim) == FilterGrease(Words(raw[gi..w]))
    decreases w - gi
  {
    if gi == w {
      assert raw[gi..w] == [];
    } else {
      GroupListWords(raw, gi + 2, lim, w);
      KeptWordsStep(raw, gi, w);
    }
  }

  lemma {:induction false} GroupListNoGrease(raw: seq<byte>, gi: nat, lim: nat)
    requires lim <= |raw|
    ensures NoGrease(GroupList(raw, gi, lim))
    decreases lim - gi
  {
    if gi + 1 < lim {
      GroupListNoGrease(raw, gi + 2, lim);
    }
  }

  /** Every type the extension walk keeps took at least four bytes of the block. */
  lemma {:induction false} ExtScanShort(raw: seq<byte>, i: nat, end: nat)
    requires i <= end <= |raw|
    ensures 4 * |ExtScan(raw, i, end).types| <= end - i
    decreases end - i
  {
    if i + 4 <= end {
      var de := i + 4 + Be16At(raw, i + 2) as int;
      if de <= end {
        ExtScanShort(raw, de, end);
        var typ := Be16At(raw, i);
        assert ExtScan(raw, i, end).types == (if IsGrease(typ) then [] else [typ]) + ExtScan(raw, de, end).types;
      }
    }
  }

  /** The extension walk keeps no GREASE type or group. */
  lemma {:induction false} ExtScanNoGrease(raw: seq<byte>, i: nat, end: nat)
    requires i <= end <= |raw|
    ensures NoGrease(ExtScan(raw, i, end).types) && NoGrease(ExtScan(raw, i, end).groups)
    decreases end - i
  {
    if i + 4 <= end {
      var typ, ds := Be16At(raw, i), i + 4;
      var de := ds + Be16At(raw, i + 2) as int;
      if de <= end {
        ExtScanNoGrease(raw, de, end);
        var rest := ExtScan(raw, de, end);
        var kept := if IsGrease(typ) then [] else [typ];
        var gs := GroupsOf(raw, typ, ds, de);
        GroupsOfNoGrease(raw, typ, ds, de);
        assert ExtScan(raw, i, end).types == kept + rest.types;
        assert ExtScan(raw, i, end).groups == gs + rest.groups;
        NoGreaseAppend(kept, rest.types);
        NoGreaseAppend(gs, rest.groups);
      }
    }
  }

  /** One extension contributes no GREASE group. */
  lemma GroupsOfNoGrease(raw: seq<byte>, typ: uint16, ds: nat, de: nat)
    requires ds <= de <= |raw|
    ensures NoGrease(GroupsOf(raw, typ, ds, de))
  {
    if typ == 0x000a && de - ds >= 2 {
      GroupListNoGrease(raw, ds + 2, Min(ds + 2 + Be16At(raw, ds) as int, de));
    }
  }

  /** Where the suite block starts, after the fixed header, the random and the session id. */
  function SuitesStart(raw: seq<byte>): (n: nat)
    requires |raw| > 43
    ensures n >= 46
  {
    46 + raw[43] as int
  }

  /** Where the suite block ends, by its declared length. */
  function SuitesEnd(raw: seq<byte>): (n: nat)
    requires |raw| > 43 && |raw| >= SuitesStart(raw)
    ensures SuitesStart(raw) <= n < SuitesStart(raw) + 0x1_0000
  {
    SuitesStart(raw) + Be16At(raw, SuitesStart(raw) - 2) as int
  }

  /** The input gets as far as the suite loop: a handshake record holding a
      ClientHello whose declared suite block lies inside the input. */
  predicate ReachesSuites(raw: seq<byte>)
  {
    |raw| > 43 && raw[0] == 22 && raw[5] == 0x01
    && |raw| >= SuitesStart(raw) && |raw| >= SuitesEnd(raw)
  }

  /** An input that does not reach the suite loop is an error; one that does
      panics in that loop or goes on to the compression methods. */
  lemma ParseStages(raw: seq<byte>)
    ensures !ReachesSuites(raw) ==> ParseSpec(raw).Err?
    ensures ReachesSuites(raw) ==>
      var suites := SuiteScan(raw, SuitesStart(raw), SuitesEnd(raw));
      ParseSpec(raw) == if suites.None? then Panic else ParseTail(raw, Be16At(raw, 9), suites.value, SuitesEnd(raw))
  {
  }

  /** A parse panics exactly when the suite block is reached, has an odd
      length and ends the input. */
  lemma ParsePanics(raw: seq<byte>)
    ensures ParseSpec(raw).Panic? <==>
      ReachesSuites(raw) && (SuitesEnd(raw) - SuitesStart(raw)) % 2 == 1 && SuitesEnd(raw) == |raw|
  {
    ParseStages(raw);
    if ReachesSuites(raw) {
      var suites := SuiteScan(raw, SuitesStart(raw), SuitesEnd(raw));
      SuiteScanPanics(raw, SuitesStart(raw), SuitesEnd(raw));
      if suites.Some? {
        TailNeverPanics(raw, Be16At(raw, 9), suites.value, SuitesEnd(raw));
      }
    }
  }

  /** The part after the suites never panics, and a success keeps the version and the suites. */
  lemma TailNeverPanics(raw: seq<byte>, version: uint16, suites: seq<uint16>, idx: nat)
    ensures !ParseTail(raw, version, suites, idx).Panic?
    ensures ParseTail(raw, version, suites, idx).Ok? ==>
      ParseTail(raw, version, suites, idx).value.version == version
      && ParseTail(raw, version, suites, idx).value.cipherSuites == suites
  {
  }

  /** The extension and group lists of a successful tail hold no GREASE. */
  lemma TailNoGrease(raw: seq<byte>, version: uint16, suites: seq<uint16>, idx: nat)
    requires ParseTail(raw, version, suites, idx).Ok?
    ensures NoGrease(ParseTail(raw, version, suites, idx).value.extensions)
    ensures NoGrease(ParseTail(raw, version, suites, idx).value.supportedGroups)
  {
    var c := idx + 1 + raw[idx] as int;
    if |raw| >= c + 2 {
      var start := c + 2;
      var end := start + Be16At(raw, c) as int;
      var scan := ExtScan(raw, start, end);
      assert ParseTail(raw, version, suites, idx) == Ok(ParsedClientHello(version, suites, scan.types, scan.groups, scan.formats));
      ExtScanNoGrease(raw, start, end);
    }
  }

  /** A successful parse read a handshake record holding a ClientHello. Its
      version is the legacy_version at bytes 9-10, its suites are the words
      of the suite block (completed by the next byte when the block has an
      odd length) without GREASE, and none of its lists holds a GREASE value. */
  lemma ParseOk(raw: seq<byte>)
    requires ParseSpec(raw).Ok?
    ensures ReachesSuites(raw)
    ensures ParseSpec(raw).value.version as int == BeValue(raw[9..11])
    ensures var s, e := SuitesStart(raw), SuitesEnd(raw);
      var w := EvenEnd(s, e);
      w <= |raw| && ParseSpec(raw).value.cipherSuites == FilterGrease(Words(raw[s..w]))
    ensures NoGrease(ParseSpec(raw).value.cipherSuites)
    ensures NoGrease(ParseSpec(raw).value.extensions) && NoGrease(ParseSpec(raw).value.supportedGroups)
  {
    ParseReachesTail(raw);
    Be16AtValue(raw, 9);
    var s, e := SuitesStart(raw), SuitesEnd(raw);
    var suites, version := SuiteScan(raw, s, e).value, Be16At(raw, 9);
    var w := EvenEnd(s, e);
    SuiteScanWords(raw, s, e, w);
    TailNeverPanics(raw, version, suites, e);
    TailNoGrease(raw, version, suites, e);
  }

  /** The end of a block from `s` to `e` rounded up to a whole number of
      two-byte words: the suite loop reads one byte past an odd block. */
  function EvenEnd(s: nat, e: nat): (w: nat)
    requires s <= e
    ensures e <= w <= e + 1 && (w - s) % 2 == 0
    ensures w == e <==> (e - s) % 2 == 0
  {
    if (e - s) % 2 == 0 then e else e + 1
  }

  /** A successful parse got past the suite loop: the result is that of the
      tail, and an odd suite block did not end the input. */
  lemma ParseReachesTail(raw: seq<byte>)
    requires ParseSpec(raw).Ok?
    ensures ReachesSuites(raw)
    ensures var s, e := SuitesStart(raw), SuitesEnd(raw);
      && SuiteScan(raw, s, e).Some?
      && ParseSpec(raw) == ParseTail(raw, Be16At(raw, 9), SuiteScan(raw, s, e).value, e)
      && ((e - s) % 2 == 1 ==> e < |raw|)
  {
    ParseStages(raw);
    ParsePanics(raw);
  }

  /** After the compression methods, fewer than two bytes mean no extension
      block: the parse succeeds with empty extension, group and format lists. */
  lemma NoExtensionBlock(raw: seq<byte>)
    requires ReachesSuites(raw) && SuiteScan(raw, SuitesStart(raw), SuitesEnd(raw)).Some?
    requires var e := SuitesEnd(raw); e < |raw| && e + 1 + raw[e] as int <= |raw| < e + 3 + raw[e] as int
    ensures ParseSpec(raw).Ok?
    ensures ParseSpec(raw).value.extensions == [] && ParseSpec(raw).value.supportedGroups == []
    ensures ParseSpec(raw).value.ecPointFormats == []
  {
    ParseStages(raw);
  }

  // ---------------------------------------------------------------------------
  // The JA3 string.
  // ---------------------------------------------------------------------------

  /** The decimal strings of a list of numbers, in order. */
  function Decimals(ns: seq<nat>): (r: seq<string>)
    ensures |r| == |ns| && forall k :: 0 <= k < |r| ==> r[k] == Decimal(ns[k])
  {
    seq(|ns|, k requires 0 <= k < |ns| => Decimal(ns[k]))
  }

  /** The numbers of a list, each read by `n`. */
  function AsNats<T>(xs: seq<T>, n: T -> nat): (r: seq<nat>)
    ensures |r| == |xs| && forall k :: 0 <= k < |r| ==> r[k] == n(xs[k])
  {
    seq(|xs|, k requires 0 <= k < |xs| => n(xs[k]))
  }

  function Nat16(x: uint16): nat
  {
    x as nat
  }

  function Nat8(x: byte): nat
  {
    x as nat
  }

  /** `iter().map(to_string).collect().join("-")`. */
  function DashList(ns: seq<nat>): string
  {
    Join(Decimals(ns), '-')
  }

  /** The string `ja3_from_raw` hashes, pushed piece by piece:
      version, suites, extension types, groups and point formats. */
  function Ja3String(p: ParsedClientHello): string
  {
    Decimal(p.version as nat) + "," + DashList(AsNats(p.cipherSuites, Nat16)) + "," + DashList(AsNats(p.extensions, Nat16))
      + "," + DashList(AsNats(p.supportedGroups, Nat16)) + "," + DashList(AsNats(p.ecPointFormats, Nat8))
  }

  /** The five comma-separated fields of the JA3 string. */
  function Ja3Fields(p: ParsedClientHello): (r: seq<string>)
    ensures |r| == 5
  {
    [Decimal(p.version as nat), DashList(AsNats(p.cipherSuites, Nat16)), DashList(AsNats(p.extensions, Nat16)),
     DashList(AsNats(p.supportedGroups, Nat16)), DashList(AsNats(p.ecPointFormats, Nat8))]
  }

  /** A dash list holds only digits and dashes. */
  lemma DashListChars(ns: seq<nat>)
    ensures forall c :: c in DashList(ns) ==> c == '-' || IsDigit(c)
  {
    JoinChars(Decimals(ns), '-');
  }

  /** The JA3 string is its five fields joined by commas. */
  lemma Ja3StringFields(p: ParsedClientHello)
    ensures Ja3String(p) == Join(Ja3Fields(p), ',')
  {
    var f := Ja3Fields(p);
    assert Join([f[0]], ',') == f[0];
    JoinSnoc([f[0]], f[1], ',');
    assert [f[0]] + [f[1]] == [f[0], f[1]];
    JoinSnoc([f[0], f[1]], f[2], ',');
    assert [f[0], f[1]] + [f[2]] == [f[0], f[1], f[2]];
    JoinSnoc([f[0], f[1], f[2]], f[3], ',');
    assert [f[0], f[1], f[2]] + [f[3]] == [f[0], f[1], f[2], f[3]];
    JoinSnoc([f[0], f[1], f[2], f[3]], f[4], ',');
    assert [f[0], f[1], f[2], f[3]] + [f[4]] == f;
  }

  lemma FieldsCommaFree(p: ParsedClientHello)
    ensures SepFree(Ja3Fields(p), ',')
  {
    var f := Ja3Fields(p);
    DigitsAvoid(p.version as nat, ',');
    DashListChars(AsNats(p.cipherSuites, Nat16));
    DashListChars(AsNats(p.extensions, Nat16));
    DashListChars(AsNats(p.supportedGroups, Nat16));
    DashListChars(AsNats(p.ecPointFormats, Nat8));
  }

  /** The JA3 string holds exactly four commas. */
  lemma Ja3Commas(p: ParsedClientHello)
    ensures Count(Ja3String(p), ',') == 4
  {
    Ja3StringFields(p);
    FieldsCommaFree(p);
    CountJoin(Ja3Fields(p), ',');
  }

  /** The JA3 string is plain ASCII, so its UTF-8 bytes are its characters. */
  lemma Ja3Ascii(p: ParsedClientHello)
    ensures IsAscii(Ja3String(p))
  {
    var f := Ja3Fields(p);
    Ja3StringFields(p);
    JoinChars(f, ',');
    DashListChars(AsNats(p.cipherSuites, Nat16));
    DashListChars(AsNats(p.extensions, Nat16));
    DashListChars(AsNats(p.supportedGroups, Nat16));
    DashListChars(AsNats(p.ecPointFormats, Nat8));
    forall i | 0 <= i < |Ja3String(p)| ensures Ja3String(p)[i] as int < 128 {
      var c := Ja3String(p)[i];
      assert c in Join(f, ',');
    }
  }

  /** Equal dash lists come from equal lists of numbers. */
  lemma DashListInjective(ms: seq<nat>, ns: seq<nat>)
    requires DashList(ms) == DashList(ns)
    ensures ms == ns
  {
    var xs, ys := Decimals(ms), Decimals(ns);
    forall k | 0 <= k < |xs| ensures '-' !in xs[k] && xs[k] != [] { DigitsAvoid(ms[k], '-'); }
    forall k | 0 <= k < |ys| ensures '-' !in ys[k] && ys[k] != [] { DigitsAvoid(ns[k], '-'); }
    JoinInjective(xs, ys, '-');
    forall k | 0 <= k < |ms| ensures ms[k] == ns[k] {
      assert xs[k] == ys[k];
      DecimalInjective(ms[k], ns[k]);
    }
  }

  /** An injective reading keeps lists apart. */
  lemma AsNatsInjective<T>(xs: seq<T>, ys: seq<T>, n: T -> nat)
    requires forall a, b :: n(a) == n(b) ==> a == b
    requires AsNats(xs, n) == AsNats(ys, n)
    ensures xs == ys
  {
    assert forall k :: 0 <= k < |xs| ==> n(xs[k]) == AsNats(ys, n)[k];
  }

  /** Distinct parses give distinct JA3 strings: the string records every
      field of the parse, in order. */
  lemma Ja3StringInjective(p: ParsedClientHello, q: ParsedClientHello)
    requires Ja3String(p) == Ja3String(q)
    ensures p == q
  {
    Ja3StringFields(p);
    Ja3StringFields(q);
    FieldsCommaFree(p);
    FieldsCommaFree(q);
    JoinInjectiveSameCount(Ja3Fields(p), Ja3Fields(q), ',');
    assert Ja3Fields(p)[0] == Ja3Fields(q)[0];
    DecimalInjective(p.version as nat, q.version as nat);
    DashListInjective(AsNats(p.cipherSuites, Nat16), AsNats(q.cipherSuites, Nat16));
    DashListInjective(AsNats(p.extensions, Nat16), AsNats(q.extensions, Nat16));
    DashListInjective(AsNats(p.supportedGroups, Nat16), AsNats(q.supportedGroups, Nat16));
    DashListInjective(AsNats(p.ecPointFormats, Nat8), AsNats(q.ecPointFormats, Nat8));
    AsNatsInjective(p.cipherSuites, q.cipherSuites, Nat16);
    AsNatsInjective(p.extensions, q.extensions, Nat16);
    AsNatsInjective(p.supportedGroups, q.supportedGroups, Nat16);
    AsNatsInjective(p.ecPointFormats, q.ecPointFormats, Nat8);
  }

  /** `ja3_from_raw` with the MD5 digest as a parameter: parse errors and
      panics propagate; otherwise the lower-case hex of the digest of the
      JA3 string's bytes. */
  function Ja3Spec(raw: seq<byte>, md5: seq<byte> -> seq<byte>): Outcome<string>
  {
    match ParseSpec(raw)
    case Ok(p) => Ok(HexBytes(md5(Utf8(Ja3String(p)))))
    case Err(m) => Err(m)
    case Panic => Panic
  }

  /** Two captures give the same digest input exactly when they parse to the
      same ClientHello: the hashed bytes determine the parse. */
  lemma Ja3InputDeterminesParse(raw1: seq<byte>, raw2: seq<byte>)
    requires ParseSpec(raw1).Ok? && ParseSpec(raw2).Ok?
    ensures Utf8(Ja3String(ParseSpec(raw1).value)) == Utf8(Ja3String(ParseSpec(raw2).value))
      <==> ParseSpec(raw1).value == ParseSpec(raw2).value
  {
    var p, q := ParseSpec(raw1).value, ParseSpec(raw2).value;
    if Utf8(Ja3String(p)) == Utf8(Ja3String(q)) {
      Ja3Ascii(p);
      Ja3Ascii(q);
      Utf8AsciiInjective(Ja3String(p), Ja3String(q));
      Ja3StringInjective(p, q);
    }
  }

  /** A digest is lower-case hex, two characters per digest byte. */
  lemma Ja3DigestShape(raw: seq<byte>, md5: seq<byte> -> seq<byte>)
    requires Ja3Spec(raw, md5).Ok?
    ensures var d := Ja3Spec(raw, md5).value;
      |d| == 2 * |md5(Utf8(Ja3String(ParseSpec(raw).value)))| && forall i :: 0 <= i < |d| ==> IsLowerHex(d[i])
  {
  }

  /** `ja3_from_raw`. */
  method Ja3FromRaw(raw: seq<byte>, md5: seq<byte> -> seq<byte>) returns (r: Outcome<string>)
    ensures r == Ja3Spec(raw, md5)
  {
    var parsed := ParseClientHello(raw);
    if parsed.Err? {
      return Err(parsed.msg);
    }
    if parsed.Panic? {
      return Panic;
    }
    var p := parsed.value;
    var s := Decimal(p.version as nat);
    s := s + ",";
    s := s + DashList(AsNats(p.cipherSuites, Nat16));
    s := s + ",";
    s := s + DashList(AsNats(p.extensions, Nat16));
    s := s + ",";
    s := s + DashList(AsNats(p.supportedGroups, Nat16));
    s := s + ",";
    s := s + DashList(AsNats(p.ecPointFormats, Nat8));
    r := Ok(HexBytes(md5(Utf8(s))));
  }
}
