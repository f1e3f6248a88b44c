/** Bone-name left/right conversion between the English suffix convention
    (`Arm_L`, `Arm_R.001`) and the Japanese prefix convention (`左Arm`,
    `右Arm.001`): the pure part — the pair table, the split of a trailing
    `.<digits>` number, and the rewrite of one name. The same code appears in
    bone_name_convert_lr/__init__.py and bone_name_convert/__init__.py. */
module BoneNames {
  import opened PyStr

  /** One row of the table: English suffix and Japanese prefix. */
  datatype Pair = Pair(en: string, jp: string)

  /** `target_pairs`, consulted in this order; the first match wins. */
  const TargetPairs: seq<Pair> := [Pair("_L", "左"), Pair("_R", "右")]

  /** What the character class `[0-9]` accepts. */
  predicate IsDigit(c: char) {
    '0' <= c <= '9'
  }

  /** `x` is a full match of the pattern `\.[0-9]+`. */
  predicate IsNumberSuffix(x: string) {
    |x| >= 2 && x[0] == '.' && forall k :: 1 <= k < |x| ==> IsDigit(x[k])
  }

  /** No tail of `name` is a numeric suffix: the search finds nothing. */
  predicate NoNumberSuffix(name: string) {
    forall k :: 0 <= k <= |name| ==> !IsNumberSuffix(name[k..])
  }

  /** Length of the maximal run of digits at the end of `s`. */
  function TrailingDigits(s: string): (n: nat)
    ensures n <= |s|
    ensures forall k :: |s| - n <= k < |s| ==> IsDigit(s[k])
    ensures n < |s| ==> !IsDigit(s[|s| - n - 1])
  {
    if |s| > 0 && IsDigit(s[|s| - 1]) then TrailingDigits(s[..|s| - 1]) + 1 else 0
  }

  /** A numeric suffix can start at one position only: its '.' is the one
      character before the trailing digit run. */
  lemma NumberSuffixUnique(name: string, i: nat, j: nat)
    requires i <= |name| && j <= |name|
    requires IsNumberSuffix(name[i..]) && IsNumberSuffix(name[j..])
    ensures i == j
  {
  }

  /** `split_extract_number`, anchored at the true end of the name: the
      stem and the trailing `.<digits>` (or "" when there is none). */
  function SplitExtractNumber(name: string): (r: (string, string))
    ensures r.0 + r.1 == name
    ensures r.1 == "" || IsNumberSuffix(r.1)
  {
    var d := TrailingDigits(name);
    if 0 < d < |name| && name[|name| - d - 1] == '.' then
      assert IsNumberSuffix(name[|name| - d - 1..]);
      (name[..|name| - d - 1], name[|name| - d - 1..])
    else
      (name, "")
  }

  /** The split finds no number exactly when no tail of the name is one. */
  lemma SplitFindsNumber(name: string)
    ensures SplitExtractNumber(name).1 == "" <==> NoNumberSuffix(name)
  {
    var d := TrailingDigits(name);
    if !(0 < d < |name| && name[|name| - d - 1] == '.') {
      forall k | 0 <= k <= |name| ensures !IsNumberSuffix(name[k..]) {
      }
    }
  }

  /** A name made of a stem and a numeric suffix splits into exactly those. */
  lemma SplitOfNumbered(stem: string, num: string)
    requires IsNumberSuffix(num)
    ensures SplitExtractNumber(stem + num) == (stem, num)
  {
    var name := stem + num;
    var r := SplitExtractNumber(name);
    assert name[|stem|..] == num;
    SplitFindsNumber(name);
    assert r.1 != "";
    assert name[|r.0|..] == r.1;
    NumberSuffixUnique(name, |stem|, |r.0|);
    assert r.0 == name[..|stem|] == stem;
  }

  /** A name whose last character is not a digit has no numeric suffix. */
  lemma NoNumberAfterNonDigit(name: string)
    requires |name| > 0 && !IsDigit(name[|name| - 1])
    ensures SplitExtractNumber(name) == (name, "")
  {
    forall k | 0 <= k <= |name| ensures !IsNumberSuffix(name[k..]) {
      if |name[k..]| >= 2 {
        assert name[k..][|name| - k - 1] == name[|name| - 1];
      }
    }
    SplitFindsNumber(name);
  }

  /** Putting a character other than '.' in front keeps a name free of a
      numeric suffix. */
  lemma NoNumberAfterPrefix(c: string, stem: string)
    requires |c| == 1 && c[0] != '.'
    requires NoNumberSuffix(stem)
    ensures SplitExtractNumber(c + stem) == (c + stem, "")
  {
    var name := c + stem;
    forall k | 0 <= k <= |name| ensures !IsNumberSuffix(name[k..]) {
      if k == 0 {
        assert name[0] == c[0];
      } else {
        assert name[k..] == stem[k - 1..];
      }
    }
    SplitFindsNumber(name);
  }

  /** `split_extract_number` AS WRITTEN: Python's `$` without the MULTILINE
      flag also matches just before a final "\n", so a name ending in
      `.<digits>\n` splits as if the newline were not there and loses it. */
  function SplitAsWritten(name: string): (r: (string, string))
    ensures (|name| == 0 || name[|name| - 1] != '\n') ==> r == SplitExtractNumber(name)
    ensures r.0 + r.1 == name || (r.1 != "" && r.0 + r.1 + "\n" == name)
    ensures r.1 == "" || IsNumberSuffix(r.1)
  {
    if |name| > 0 && name[|name| - 1] == '\n' && SplitExtractNumber(name[..|name| - 1]).1 != "" then
      SplitExtractNumber(name[..|name| - 1])
    else
      SplitExtractNumber(name)
  }

  /** The inputs that show the discrepancy, e.g. "Arm_L.003\n": as written
      the trailing newline is dropped from the split (and so from the renamed
      bone); the corrected split finds no number and keeps the name whole. */
  lemma SplitAsWrittenLosesNewline(stem: string, num: string)
    requires IsNumberSuffix(num)
    ensures SplitAsWritten(stem + num + "\n") == (stem, num)
    ensures SplitExtractNumber(stem + num + "\n") == (stem + num + "\n", "")
  {
    var name := stem + num + "\n";
    assert name[..|name| - 1] == stem + num;
    SplitOfNumbered(stem, num);
    NoNumberAfterNonDigit(name);
  }

  /** The en→jp inner loop over the pairs from index `i` on: the first pair
      whose English suffix ends the stem rewrites the name, else it stays. */
  function EnToJpFrom(name: string, i: nat): string
    requires i <= |TargetPairs|
    decreases |TargetPairs| - i
  {
    if i == |TargetPairs| then name
    else
      var (stem, num) := SplitExtractNumber(name);
      if EndsWith(stem, TargetPairs[i].en) then
        TargetPairs[i].jp + RStrip(stem, TargetPairs[i].en) + num
      else
        EnToJpFrom(name, i + 1)
  }

  /** `convert_lr_en_to_jp` on one bone name. */
  function EnToJp(name: string): string {
    EnToJpFrom(name, 0)
  }

  /** The jp→en inner loop over the pairs from index `i` on. */
  function JpToEnFrom(name: string, i: nat): string
    requires i <= |TargetPairs|
    decreases |TargetPairs| - i
  {
    if i == |TargetPairs| then name
    else
      var (stem, num) := SplitExtractNumber(name);
      if StartsWith(stem, TargetPairs[i].jp) then
        LStrip(stem, TargetPairs[i].jp) + TargetPairs[i].en + num
      else
        JpToEnFrom(name, i + 1)
  }

  /** `convert_lr_jp_to_en` on one bone name. */
  function JpToEn(name: string): string {
    JpToEnFrom(name, 0)
  }

  /** en→jp AS WRITTEN: the same pair loop on the split as written. It
      agrees with `EnToJpFrom` on every name that does not end in a
      newline. */
  function EnToJpAsWrittenFrom(name: string, i: nat): (r: string)
    requires i <= |TargetPairs|
    ensures (|name| == 0 || name[|name| - 1] != '\n') ==> r == EnToJpFrom(name, i)
    decreases |TargetPairs| - i
  {
    if i == |TargetPairs| then name
    else
      var (stem, num) := SplitAsWritten(name);
      if EndsWith(stem, TargetPairs[i].en) then
        TargetPairs[i].jp + RStrip(stem, TargetPairs[i].en) + num
      else
        EnToJpAsWrittenFrom(name, i + 1)
  }

  /** `convert_lr_en_to_jp` AS WRITTEN on one bone name. */
  function EnToJpAsWritten(name: string): (r: string)
    ensures (|name| == 0 || name[|name| - 1] != '\n') ==> r == EnToJp(name)
  {
    EnToJpAsWrittenFrom(name, 0)
  }

  /** jp→en AS WRITTEN: the same pair loop on the split as written. */
  function JpToEnAsWrittenFrom(name: string, i: nat): (r: string)
    requires i <= |TargetPairs|
    ensures (|name| == 0 || name[|name| - 1] != '\n') ==> r == JpToEnFrom(name, i)
    decreases |TargetPairs| - i
  {
    if i == |TargetPairs| then name
    else
      var (stem, num) := SplitAsWritten(name);
      if StartsWith(stem, TargetPairs[i].jp) then
        LStrip(stem, TargetPairs[i].jp) + TargetPairs[i].en + num
      else
        JpToEnAsWrittenFrom(name, i + 1)
  }

  /** `convert_lr_jp_to_en` AS WRITTEN on one bone name. */
  function JpToEnAsWritten(name: string): (r: string)
    ensures (|name| == 0 || name[|name| - 1] != '\n') ==> r == JpToEn(name)
  {
    JpToEnAsWrittenFrom(name, 0)
  }

  /** en→jp case by case: `_L` is tried before `_R`, one pair at most is
      applied, the whole run of trailing '_' and 'L' (or 'R') characters is
      stripped, and a stem ending in neither is left alone. */
  lemma EnToJpCases(name: string)
    ensures var (stem, num) := SplitExtractNumber(name);
      EnToJp(name) ==
        if EndsWith(stem, "_L") then "左" + RStrip(stem, "_L") + num
        else if EndsWith(stem, "_R") then "右" + RStrip(stem, "_R") + num
        else name
  {
    assert EnToJp(name) == EnToJpFrom(name, 0);
    assert EnToJpFrom(name, 2) == name;
  }

  /** jp→en case by case: '左' is tried before '右', every leading copy of
      the matched character is dropped, and the English suffix goes in front
      of the number; a stem starting with neither is left alone. */
  lemma JpToEnCases(name: string)
    ensures var (stem, num) := SplitExtractNumber(name);
      JpToEn(name) ==
        if StartsWith(stem, "左") then LStrip(stem, "左") + "_L" + num
        else if StartsWith(stem, "右") then LStrip(stem, "右") + "_R" + num
        else name
  {
    assert JpToEn(name) == JpToEnFrom(name, 0);
    assert JpToEnFrom(name, 2) == name;
  }

  /** en→jp leaves the name alone or makes it shorter (the two-character
      suffix, and every suffix character before it, give way to one
      character) and starts it with '左' or '右'; the number stays last. */
  lemma EnToJpShortens(name: string)
    ensures EndsWith(EnToJp(name), SplitExtractNumber(name).1)
    ensures EnToJp(name) == name ||
      (|EnToJp(name)| < |name| && (StartsWith(EnToJp(name), "左") || StartsWith(EnToJp(name), "右")))
  {
    var (stem, num) := SplitExtractNumber(name);
    EnToJpCases(name);
    if EndsWith(stem, "_L") {
      RenamedShape("左", stem, "_L", num);
    } else if EndsWith(stem, "_R") {
      RenamedShape("右", stem, "_R", num);
    }
  }

  /** The shape of one en→jp rewrite `jp + stem.rstrip(en) + num`. */
  lemma RenamedShape(jp: string, stem: string, en: string, num: string)
    requires |jp| == 1 && |en| == 2 && EndsWith(stem, en)
    ensures var r := jp + RStrip(stem, en) + num;
      |r| < |stem| + |num| && StartsWith(r, jp) && EndsWith(r, num)
  {
    var kept := RStrip(stem, en);
    var r := jp + kept + num;
    assert stem[|stem| - 2] == en[0] && stem[|stem| - 1] == en[1];
    assert r[..1] == jp && r[|r| - |num|..] == num;
  }

  /** jp→en leaves the name alone or puts `_L` or `_R` right before the
      number; as at least the leading character is dropped, the name grows
      by one character at most. */
  lemma JpToEnGrowsByOne(name: string)
    ensures var num := SplitExtractNumber(name).1;
      JpToEn(name) == name ||
      (|JpToEn(name)| <= |name| + 1 && (EndsWith(JpToEn(name), "_L" + num) || EndsWith(JpToEn(name), "_R" + num)))
  {
    var (stem, num) := SplitExtractNumber(name);
    JpToEnCases(name);
    if StartsWith(stem, "左") {
      UnprefixedShape("左", stem, "_L", num);
    } else if StartsWith(stem, "右") {
      UnprefixedShape("右", stem, "_R", num);
    }
  }

  /** The shape of one jp→en rewrite `stem.lstrip(jp) + en + num`. */
  lemma UnprefixedShape(jp: string, stem: string, en: string, num: string)
    requires |jp| == 1 && |en| == 2 && StartsWith(stem, jp)
    ensures var r := LStrip(stem, jp) + en + num;
      |r| <= |stem| + |num| + 1 && EndsWith(r, en + num)
  {
    var kept := LStrip(stem, jp);
    var r := kept + en + num;
    assert stem[0] == jp[0];
    assert r == kept + (en + num);
  }

  /** en→jp of a name whose split is known: pair `p` applies when the stem
      ends in its suffix and no earlier pair does. */
  lemma EnToJpOfSplit(name: string, stem: string, num: string, p: nat)
    requires p < |TargetPairs|
    requires SplitExtractNumber(name) == (stem, num)
    requires EndsWith(stem, TargetPairs[p].en)
    requires p == 1 ==> !EndsWith(stem, TargetPairs[0].en)
    ensures EnToJp(name) == TargetPairs[p].jp + RStrip(stem, TargetPairs[p].en) + num
  {
    if p == 1 {
      assert EnToJpFrom(name, 0) == EnToJpFrom(name, 1);
    }
  }

  /** jp→en of a name whose split is known: pair `p` applies when the stem
      starts with its character and no earlier pair does. */
  lemma JpToEnOfSplit(name: string, stem: string, num: string, p: nat)
    requires p < |TargetPairs|
    requires SplitExtractNumber(name) == (stem, num)
    requires StartsWith(stem, TargetPairs[p].jp)
    requires p == 1 ==> !StartsWith(stem, TargetPairs[0].jp)
    ensures JpToEn(name) == LStrip(stem, TargetPairs[p].jp) + TargetPairs[p].en + num
  {
    if p == 1 {
      assert JpToEnFrom(name, 0) == JpToEnFrom(name, 1);
    }
  }

  /** `<stem><tail>` splits into `<stem><tail>` and the number `num` put
      after it, whenever `tail` does not end in a digit. */
  lemma SplitAfterNonDigit(tagged: string, num: string)
    requires |tagged| > 0 && !IsDigit(tagged[|tagged| - 1])
    requires num == "" || IsNumberSuffix(num)
    ensures SplitExtractNumber(tagged + num) == (tagged, num)
  {
    if num == "" {
      assert tagged + num == tagged;
      NoNumberAfterNonDigit(tagged);
    } else {
      SplitOfNumbered(tagged, num);
    }
  }

  /** What en→jp needs to know about `<stem><en><num>`: how it splits, that
      only pair `p` applies, and what stripping the suffix leaves. */
  lemma TaggedFacts(stem: string, p: nat, num: string)
    requires p < |TargetPairs|
    requires num == "" || IsNumberSuffix(num)
    requires |stem| > 0 ==> stem[|stem| - 1] !in TargetPairs[p].en
    ensures var tagged := stem + TargetPairs[p].en;
      SplitExtractNumber(tagged + num) == (tagged, num) &&
      EndsWith(tagged, TargetPairs[p].en) &&
      (p == 1 ==> !EndsWith(tagged, TargetPairs[0].en)) &&
      RStrip(tagged, TargetPairs[p].en) == stem
  {
    var t := TargetPairs[p];
    var tagged := stem + t.en;
    assert tagged[|tagged| - 1] == t.en[1];
    SplitAfterNonDigit(tagged, num);
    assert tagged[|tagged| - |t.en|..] == t.en;
    RStripAppended(stem, t.en, t.en);
  }

  /** The English-tagged name `<stem><en><num>` becomes `<jp><stem><num>`
      when the stem does not itself end in a character of the suffix. */
  lemma EnToJpOfTagged(stem: string, p: nat, num: string)
    requires p < |TargetPairs|
    requires num == "" || IsNumberSuffix(num)
    requires |stem| > 0 ==> stem[|stem| - 1] !in TargetPairs[p].en
    ensures EnToJp(stem + TargetPairs[p].en + num) == TargetPairs[p].jp + stem + num
  {
    var tagged := stem + TargetPairs[p].en;
    TaggedFacts(stem, p, num);
    EnToJpOfSplit(tagged + num, tagged, num, p);
  }

  /** `<jp><stem>` splits into itself and the number put after it, when the
      stem has no number of its own in the case there is none after it. */
  lemma SplitOfPrefixed(c: string, stem: string, num: string)
    requires |c| == 1 && c[0] != '.'
    requires num == "" || IsNumberSuffix(num)
    requires num == "" ==> NoNumberSuffix(stem)
    ensures SplitExtractNumber(c + stem + num) == (c + stem, num)
  {
    if num == "" {
      assert c + stem + num == c + stem;
      NoNumberAfterPrefix(c, stem);
    } else {
      SplitOfNumbered(c + stem, num);
    }
  }

  /** The Japanese-tagged name `<jp><stem><num>` becomes `<stem><en><num>`
      when the stem does not itself start with the Japanese character and,
      without a number, does not itself end in `.<digits>`. */
  lemma JpToEnOfPrefixed(stem: string, p: nat, num: string)
    requires p < |TargetPairs|
    requires num == "" || IsNumberSuffix(num)
    requires num == "" ==> NoNumberSuffix(stem)
    requires |stem| > 0 ==> stem[0] !in TargetPairs[p].jp
    ensures JpToEn(TargetPairs[p].jp + stem + num) == stem + TargetPairs[p].en + num
  {
    var t := TargetPairs[p];
    var tagged := t.jp + stem;
    SplitOfPrefixed(t.jp, stem, num);
    assert StartsWith(tagged, t.jp);
    assert p == 1 ==> tagged[0] == '右' && !StartsWith(tagged, TargetPairs[0].jp);
    JpToEnOfSplit(tagged + num, tagged, num, p);
    LStripPrepended(t.jp, stem, t.jp);
  }

  /** en→jp followed by jp→en restores `<stem>_L[.<n>]` (and `_R`), and
      jp→en followed by en→jp restores `左<stem>[.<n>]` (and `右`), when the
      stem meets these conditions. */
  lemma RoundTrip(stem: string, p: nat, num: string)
    requires p < |TargetPairs|
    requires num == "" || IsNumberSuffix(num)
    requires num == "" ==> NoNumberSuffix(stem)
    requires |stem| > 0 ==> stem[|stem| - 1] !in TargetPairs[p].en
    requires |stem| > 0 ==> stem[0] !in TargetPairs[p].jp
    ensures JpToEn(EnToJp(stem + TargetPairs[p].en + num)) == stem + TargetPairs[p].en + num
    ensures EnToJp(JpToEn(TargetPairs[p].jp + stem + num)) == TargetPairs[p].jp + stem + num
  {
    EnToJpOfTagged(stem, p, num);
    JpToEnOfPrefixed(stem, p, num);
  }

  /** The same two round trips for the conversions as written, which need
      one more condition: with no number, a stem that ends in "\n" must
      not end in `.<digits>` just before it. Otherwise the split as written
      takes those digits for the number of `左<stem>` (see
      `RoundTripAsWrittenLosesNewline`). Under it, both names split as
      written just as they split with the corrected split. */
  lemma RoundTripAsWritten(stem: string, p: nat, num: string)
    requires p < |TargetPairs|
    requires num == "" || IsNumberSuffix(num)
    requires num == "" ==> NoNumberSuffix(stem)
    requires |stem| > 0 ==> stem[|stem| - 1] !in TargetPairs[p].en
    requires |stem| > 0 ==> stem[0] !in TargetPairs[p].jp
    requires num == "" && |stem| > 0 && stem[|stem| - 1] == '\n' ==> NoNumberSuffix(stem[..|stem| - 1])
    ensures JpToEnAsWritten(EnToJpAsWritten(stem + TargetPairs[p].en + num)) == stem + TargetPairs[p].en + num
    ensures EnToJpAsWritten(JpToEnAsWritten(TargetPairs[p].jp + stem + num)) == TargetPairs[p].jp + stem + num
  {
    var tagged, prefixed := stem + TargetPairs[p].en + num, TargetPairs[p].jp + stem + num;
    EnToJpOfTagged(stem, p, num);
    JpToEnOfPrefixed(stem, p, num);
    EndsOutsideNewline(stem, p, num);
    PlainNameAgrees(tagged);
    if num == "" && |stem| > 0 && stem[|stem| - 1] == '\n' {
      PrefixedSplitsAlike(stem, p);
    } else {
      PlainNameAgrees(prefixed);
    }
  }

  /** `<stem>_L[.<n>]` never ends in "\n", and `左<stem>[.<n>]` ends in it
      only when the stem does and there is no number. */
  lemma EndsOutsideNewline(stem: string, p: nat, num: string)
    requires p < |TargetPairs|
    requires num == "" || IsNumberSuffix(num)
    ensures var tagged := stem + TargetPairs[p].en + num; tagged[|tagged| - 1] != '\n'
    ensures var prefixed := TargetPairs[p].jp + stem + num;
      !(num == "" && |stem| > 0 && stem[|stem| - 1] == '\n') ==> prefixed[|prefixed| - 1] != '\n'
  {
    var t := TargetPairs[p];
    if num != "" {
      LastOfAppended(stem + t.en, num);
      LastOfAppended(t.jp + stem, num);
    } else {
      assert stem + t.en + num == stem + t.en;
      assert t.jp + stem + num == t.jp + stem;
      LastOfAppended(stem, t.en);
      if |stem| > 0 {
        LastOfAppended(t.jp, stem);
      }
    }
  }

  /** `左<stem>` with a stem ending in "\n" but not in `.<digits>\n`:
      the split as written finds no number before the newline, so both
      conversions as written agree with the corrected ones on it. */
  lemma PrefixedSplitsAlike(stem: string, p: nat)
    requires p < |TargetPairs|
    requires |stem| > 0 && stem[|stem| - 1] == '\n' && NoNumberSuffix(stem[..|stem| - 1])
    ensures EnToJpAsWritten(TargetPairs[p].jp + stem + "") == EnToJp(TargetPairs[p].jp + stem + "")
    ensures JpToEnAsWritten(TargetPairs[p].jp + stem + "") == JpToEn(TargetPairs[p].jp + stem + "")
  {
    var jp := TargetPairs[p].jp;
    var name := jp + stem + "";
    assert name[..|name| - 1] == jp + stem[..|stem| - 1];
    NoNumberAfterPrefix(jp, stem[..|stem| - 1]);
    assert SplitAsWritten(name) == SplitExtractNumber(name);
    SameSplitAgrees(name);
  }

  /** Where the split as written agrees with the corrected one, so do both
      conversions: each pair turn splits the same name the same way. */
  lemma SameSplitAgrees(name: string)
    requires SplitAsWritten(name) == SplitExtractNumber(name)
    ensures EnToJpAsWritten(name) == EnToJp(name)
    ensures JpToEnAsWritten(name) == JpToEn(name)
  {
    assert EnToJpAsWrittenFrom(name, 1) == EnToJpFrom(name, 1);
    assert JpToEnAsWrittenFrom(name, 1) == JpToEnFrom(name, 1);
  }

  /** The last character of `x + y` is that of `y`. */
  lemma LastOfAppended(x: string, y: string)
    requires |y| > 0
    ensures (x + y)[|x + y| - 1] == y[|y| - 1]
  {
  }

  /** On a name not ending in "\n" both conversions as written agree with
      the corrected ones. */
  lemma PlainNameAgrees(name: string)
    requires |name| == 0 || name[|name| - 1] != '\n'
    ensures EnToJpAsWritten(name) == EnToJp(name)
    ensures JpToEnAsWritten(name) == JpToEn(name)
  {
  }

  /** As written, the extra condition cannot be dropped: `<stem><.n>\n_L`
      (`A.5\n_L`, say) goes to `左<stem><.n>\n` and comes back as
      `<stem>_L<.n>`, without its newline. */
  lemma RoundTripAsWrittenLosesNewline(stem: string, num: string)
    requires IsNumberSuffix(num)
    requires |stem| > 0 ==> stem[0] !in TargetPairs[0].jp
    ensures EnToJpAsWritten(stem + num + "\n" + TargetPairs[0].en) == TargetPairs[0].jp + stem + num + "\n"
    ensures JpToEnAsWritten(EnToJpAsWritten(stem + num + "\n" + TargetPairs[0].en)) == stem + TargetPairs[0].en + num
  {
    var bare := stem + num + "\n";
    NewlineStemEnToJp(bare);
    assert TargetPairs[0].jp + bare == TargetPairs[0].jp + stem + num + "\n";
    JpToEnAsWrittenLosesNewline(stem, num);
  }

  /** As written, a stem ending in "\n" followed by `_L` becomes
      `左<stem>`: the name ends in `L`, so the split finds no number. */
  lemma NewlineStemEnToJp(bare: string)
    requires |bare| > 0 && bare[|bare| - 1] == '\n'
    ensures EnToJpAsWritten(bare + TargetPairs[0].en) == TargetPairs[0].jp + bare
  {
    var t := TargetPairs[0];
    EnToJpOfTagged(bare, 0, "");
    assert bare + t.en + "" == bare + t.en;
    assert t.jp + bare + "" == t.jp + bare;
    LastOfAppended(bare, t.en);
    PlainNameAgrees(bare + t.en);
  }

  /** en→jp of `<stem>.<digits>_L`: the digits stay with the stem. */
  lemma NumberedStemEnToJp(stem: string, num: string)
    requires IsNumberSuffix(num)
    ensures EnToJp(stem + num + TargetPairs[0].en) == TargetPairs[0].jp + stem + num
  {
    var t, s := TargetPairs[0], stem + num;
    assert s[|s| - 1] == num[|num| - 1];
    assert s + t.en + "" == stem + num + t.en;
    assert t.jp + s + "" == t.jp + stem + num;
    EnToJpOfTagged(s, 0, "");
  }

  /** Without a number, a stem that itself ends in `.<digits>` does not
      survive the round trip: `Arm.5_L` becomes `左Arm.5`, and the digits come
      back as the number, giving `Arm_L.5`. */
  lemma RoundTripNeedsBareStem(stem: string, num: string)
    requires IsNumberSuffix(num)
    requires |stem| > 0 ==> stem[0] !in TargetPairs[0].jp
    ensures EnToJp(stem + num + TargetPairs[0].en) == TargetPairs[0].jp + stem + num
    ensures JpToEn(EnToJp(stem + num + TargetPairs[0].en)) == stem + TargetPairs[0].en + num
    ensures JpToEn(EnToJp(stem + num + TargetPairs[0].en)) != stem + num + TargetPairs[0].en
  {
    var t := TargetPairs[0];
    var orig, back := stem + num + t.en, stem + t.en + num;
    assert IsDigit(back[|back| - 1]) by {
      assert back[|back| - 1] == num[|num| - 1];
    }
    assert orig[|orig| - 1] == 'L';
    assert back != orig;
    NumberedStemEnToJp(stem, num);
    JpToEnOfPrefixed(stem, 0, num);
  }

  /** One rewrite per call: once `_L` is stripped the loop stops, even when
      that uncovers `_R` (`A_R_L` becomes `左A_R`; only a second call would
      go on to `右左A`). */
  lemma EnToJpOncePerCall(stem: string)
    ensures EnToJp(stem + "_R_L") == "左" + stem + "_R"
  {
    var once := stem + "_R";
    assert once[|once| - 1] == 'R';
    EnToJpOfTagged(once, 0, "");
    assert once + TargetPairs[0].en + "" == stem + "_R_L";
    assert TargetPairs[0].jp + once + "" == "左" + stem + "_R";
  }

  /** The rename as written on `<stem>_L.<digits>\n`: the split as written
      finds the number, so the bone becomes `左<stem>.<digits>` and loses its
      newline, while the corrected conversion leaves the name as it is. */
  lemma EnToJpAsWrittenLosesNewline(stem: string, num: string)
    requires IsNumberSuffix(num)
    requires |stem| > 0 ==> stem[|stem| - 1] !in TargetPairs[0].en
    ensures EnToJpAsWritten(stem + TargetPairs[0].en + num + "\n") == TargetPairs[0].jp + stem + num
    ensures EnToJp(stem + TargetPairs[0].en + num + "\n") == stem + TargetPairs[0].en + num + "\n"
  {
    var t := TargetPairs[0];
    var tagged := stem + t.en;
    var name := tagged + num + "\n";
    SplitAsWrittenLosesNewline(tagged, num);
    TaggedFacts(stem, 0, num);
    assert EnToJpAsWritten(name) == EnToJpAsWrittenFrom(name, 0);
    assert name[|name| - 1] == '\n';
    EnToJpCases(name);
  }

  /** The reverse rename as written on `左<stem>.<digits>\n`: it becomes
      `<stem>_L.<digits>` and loses the newline (the corrected conversion
      instead appends `_L` after it, see `JpToEnKeepsNewline`). */
  lemma JpToEnAsWrittenLosesNewline(stem: string, num: string)
    requires IsNumberSuffix(num)
    requires |stem| > 0 ==> stem[0] !in TargetPairs[0].jp
    ensures JpToEnAsWritten(TargetPairs[0].jp + stem + num + "\n") == stem + TargetPairs[0].en + num
  {
    var t := TargetPairs[0];
    var tagged := t.jp + stem;
    var name := tagged + num + "\n";
    SplitAsWrittenLosesNewline(tagged, num);
    LStripPrepended(t.jp, stem, t.jp);
    assert StartsWith(tagged, t.jp);
    assert JpToEnAsWritten(name) == JpToEnAsWrittenFrom(name, 0);
  }

  /** The corrected jp→en on `左<rest>` where `<rest>` ends in a newline,
      as `左<stem>.<digits>\n` does: there is no number, so `_L` goes after
      the newline. */
  lemma JpToEnKeepsNewline(rest: string)
    requires |rest| > 0 && rest[|rest| - 1] == '\n' && rest[0] !in TargetPairs[0].jp
    ensures JpToEn(TargetPairs[0].jp + rest) == rest + TargetPairs[0].en
  {
    var t := TargetPairs[0];
    var name := t.jp + rest;
    assert name[|name| - 1] == '\n';
    NoNumberAfterNonDigit(name);
    LStripPrepended(t.jp, rest, t.jp);
    assert StartsWith(name, t.jp);
    JpToEnOfSplit(name, name, "", 0);
  }
}
