/** The conditional headers of a request: lists of entity tags, and their evaluation against a version. */
module Conditions {
  import opened Results
  import opened Versions

  // -- Text -------------------------------------------------------------

  /** The characters that a client may write as blanks: the spaces, the line ends and the separators of Unicode. */
  predicate White(c: char) {
    || c == ' ' || c == '\t' || c == '\n' || c == '\r' || c == '\U{000B}' || c == '\U{000C}'
    || c == '\U{001C}' || c == '\U{001D}' || c == '\U{001E}' || c == '\U{001F}' || c == '\U{0085}' || c == '\U{00A0}'
    || c == '\U{1680}' || c == '\U{2000}' || c == '\U{2001}' || c == '\U{2002}' || c == '\U{2003}' || c == '\U{2004}'
    || c == '\U{2005}' || c == '\U{2006}' || c == '\U{2007}' || c == '\U{2008}' || c == '\U{2009}' || c == '\U{200A}'
    || c == '\U{2028}' || c == '\U{2029}' || c == '\U{202F}' || c == '\U{205F}' || c == '\U{3000}'
  }

  /** The characters that Python takes for white space, by their codes. */
  predicate IsBlank(c: char): (b: bool)
    ensures b <==> White(c)
  {
    var code := c as int;
    || 0x9 <= code <= 0xd || 0x1c <= code <= 0x20 || code == 0x85 || code == 0xa0 || code == 0x1680
    || 0x2000 <= code <= 0x200a || code == 0x2028 || code == 0x2029 || code == 0x202f || code == 0x205f || code == 0x3000
  }

  predicate AllBlank(s: string) {
    forall i :: 0 <= i < |s| ==> White(s[i])
  }

  function StripLeft(s: string): string {
    if s != [] && IsBlank(s[0]) then StripLeft(s[1..]) else s
  }

  function StripRight(s: string): string {
    if s != [] && IsBlank(s[|s| - 1]) then StripRight(s[..|s| - 1]) else s
  }

  function Strip(s: string): string {
    StripRight(StripLeft(s))
  }

  /** The position of the first occurrence of a character, or the length of the text. */
  function Find(s: string, c: char): (i: nat)
    ensures i <= |s|
    ensures c !in s[..i]
    ensures i < |s| ==> s[i] == c
  {
    if s == [] || s[0] == c then 0
    else
      assert s == [s[0]] + s[1..];
      1 + Find(s[1..], c)
  }

  // -- Entity tags ------------------------------------------------------

  predicate StartsWeak(s: string) {
    |s| >= 2 && (s[0] == 'W' || s[0] == 'w') && s[1] == '/'
  }

  function DropWeak(s: string): string {
    if StartsWeak(s) then s[2..] else s
  }

  /** The opaque part of an entity tag, without its weak prefix and its quotes. */
  function OpaqueTag(entityTag: string): string {
    var tag := DropWeak(Strip(entityTag));
    if |tag| >= 2 && tag[0] == '"' && tag[|tag| - 1] == '"' then tag[1..|tag| - 1] else tag
  }

  /** A member of a tag list: a quoted tag, that may hold commas, or a bare one. */
  datatype Member = Quoted(tag: string) | Bare(tag: string)

  /** A member, and the text after its comma, if it ends with one. */
  datatype Match = Match(member: Member, rest: Option<string>)

  /** What the text after a member must start with: the comma, or nothing. */
  predicate Ends(after: string) {
    after == [] || after[0] == ','
  }

  /**
   * The first member of a list. Blanks and a weak prefix are skipped; a quoted tag up to a comma or the end comes first,
   * and otherwise a bare tag runs up to the comma, without its trailing blanks.
   */
  function ScanMember(s: string): (m: Match)
    ensures m.rest.Some? ==> |m.rest.value| < |s|
  {
    StripLeftShortens(s);
    var t := DropWeak(StripLeft(s));
    var close := if t != [] && t[0] == '"' then 1 + Find(t[1..], '"') else |t|;
    var after := if close < |t| then StripLeft(t[close + 1..]) else [];
    if close < |t| && Ends(after) then
      StripLeftShortens(t[close + 1..]);
      Match(Quoted(t[1..close]), if after == [] then None else Some(after[1..]))
    else
      var comma := Find(t, ',');
      Match(Bare(StripRight(t[..comma])), if comma == |t| then None else Some(t[comma + 1..]))
  }

  function Members(s: string): (members: seq<Member>)
    decreases |s|
  {
    var m := ScanMember(s);
    [m.member] + (if m.rest.Some? then Members(m.rest.value) else [])
  }

  /** The members that are still to be read. */
  function Unread(rest: Option<string>): seq<Member> {
    if rest.Some? then Members(rest.value) else []
  }

  /** The tags of an If-Match or If-None-Match header, or "*", which matches any current representation. */
  datatype EntityTags = EntityTags(tags: set<string>, any: bool)

  function Listed(members: seq<Member>): set<string> {
    set m | m in members && (m.Quoted? || m.tag != "") :: m.tag
  }

  lemma ListedAppend(members: seq<Member>, m: Member)
    ensures Listed(members + [m]) == Listed(members) + (if m.Quoted? || m.tag != "" then {m.tag} else {})
  {
  }

  /** What a conditional header holds, when it is not missing or empty. */
  function Parsed(header: Option<string>): Option<EntityTags> {
    if header.None? || Strip(header.value) == [] then None
    else
      var members := Members(header.value);
      Some(if Bare("*") in members then EntityTags({}, true) else EntityTags(Listed(members), false))
  }

  /** Reads a conditional header member by member, and stops at the first "*". */
  method Parse(header: Option<string>) returns (parsed: Option<EntityTags>)
    ensures parsed == Parsed(header)
  {
    if header.None? || Strip(header.value) == [] {
      return None;
    }
    var tags := {};
    var rest := header;
    ghost var read: seq<Member> := [];
    while rest.Some?
      invariant Members(header.value) == read + Unread(rest)
      invariant Bare("*") !in read
      invariant tags == Listed(read)
      decreases if rest.Some? then 1 + |rest.value| else 0
    {
      var m := ScanMember(rest.value);
      ghost var unread := Unread(m.rest);
      assert read + ([m.member] + unread) == (read + [m.member]) + unread;
      if m.member == Bare("*") {
        return Some(EntityTags({}, true));
      }
      if m.member.Quoted? || m.member.tag != "" {
        tags := tags + {m.member.tag};
      }
      ListedAppend(read, m.member);
      read := read + [m.member];
      rest := m.rest;
    }
    assert Members(header.value) == read;
    parsed := Some(EntityTags(tags, false));
  }

  /** Whether a resource version matches the header; a resource without version matches no listed tag. */
  predicate Matches(parsed: EntityTags, version: Option<string>) {
    parsed.any || (version.Some? && OpaqueTag(version.value) in parsed.tags)
  }

  // -- Conditional headers ----------------------------------------------

  datatype Verb = Get | Put | Patch | Delete

  datatype Conditions = Conditions(ifMatch: Option<string>, ifNoneMatch: Option<string>)

  /** Evaluates If-Match, then If-None-Match; false answers 304 to a GET. */
  function Check(conditions: Conditions, version: Option<string>, verb: Verb): Result<bool> {
    var ifMatch := Parsed(conditions.ifMatch);
    if ifMatch.Some? && !Matches(ifMatch.value, version) then Err(PreconditionFailed)
    else
      var ifNoneMatch := Parsed(conditions.ifNoneMatch);
      if ifNoneMatch.Some? && Matches(ifNoneMatch.value, version) then (if verb == Get then Ok(false) else Err(PreconditionFailed))
      else Ok(true)
  }

  /** A request goes on exactly when it has no failed condition; only a GET whose If-None-Match failed is answered 304. */
  lemma CheckDecides(conditions: Conditions, version: Option<string>, verb: Verb)
    ensures var ifMatch, ifNoneMatch := Parsed(conditions.ifMatch), Parsed(conditions.ifNoneMatch);
            var met := ifMatch.None? || Matches(ifMatch.value, version);
            var unmodified := ifNoneMatch.Some? && Matches(ifNoneMatch.value, version);
            && (Check(conditions, version, verb) == Ok(true) <==> met && !unmodified)
            && (Check(conditions, version, verb) == Ok(false) <==> met && unmodified && verb == Get)
            && (Check(conditions, version, verb).Err? ==> Check(conditions, version, verb) == Err(PreconditionFailed))
  {
  }

  // -- Round trips ------------------------------------------------------

  /** An entity tag as a client writes it: a weak prefix in either case or none, then its opaque part, in quotes or bare. */
  datatype Tag = Tag(prefix: Prefix, text: string, quoted: bool)
  datatype Prefix = Strong | Upper | Lower

  function PrintPrefix(prefix: Prefix): string {
    match prefix case Strong => "" case Upper => "W/" case Lower => "w/"
  }

  function PrintText(tag: Tag): string {
    if tag.quoted then "\"" + tag.text + "\"" else tag.text
  }

  function Print(tag: Tag): string {
    PrintPrefix(tag.prefix) + PrintText(tag)
  }

  /** A bare tag must not be empty nor a star, hold no comma, start as another form does, or have blanks at its ends. */
  predicate Plain(tag: Tag) {
    var text := tag.text;
    && text != "" && text != "*" && ',' !in text && text[0] != '"'
    && !White(text[0]) && !White(text[|text| - 1])
    && (tag.prefix == Strong ==> !(|text| >= 2 && (text[0] == 'W' || text[0] == 'w') && text[1] == '/'))
  }

  /** A tag with the blanks around it. */
  datatype Item = Item(before: string, tag: Tag, after: string)

  function PrintItem(item: Item): string {
    item.before + Print(item.tag) + item.after
  }

  function PrintList(items: seq<Item>): string
    requires items != []
  {
    if |items| == 1 then PrintItem(items[0]) else PrintItem(items[0]) + "," + PrintList(items[1..])
  }

  predicate Printable(item: Item) {
    Legible(item) && (item.tag.quoted ==> '"' !in item.tag.text)
  }

  /** A tag that can stand alone, as a version does: a quoted one may hold quotes then. */
  predicate Legible(item: Item) {
    AllBlank(item.before) && AllBlank(item.after) && (!item.tag.quoted ==> Plain(item.tag))
  }

  lemma {:induction false} StripLeftShortens(s: string)
    ensures |StripLeft(s)| <= |s|
  {
    if s != [] && IsBlank(s[0]) {
      StripLeftShortens(s[1..]);
    }
  }

  lemma {:induction false} StripLeftBlanks(blanks: string, s: string)
    requires AllBlank(blanks) && (s == [] || !IsBlank(s[0]))
    ensures StripLeft(blanks + s) == s
  {
    if blanks == [] {
      assert blanks + s == s;
    } else {
      assert (blanks + s)[1..] == blanks[1..] + s;
      StripLeftBlanks(blanks[1..], s);
    }
  }

  lemma {:induction false} StripRightBlanks(s: string, blanks: string)
    requires AllBlank(blanks) && (s == [] || !IsBlank(s[|s| - 1]))
    ensures StripRight(s + blanks) == s
  {
    if blanks == [] {
      assert s + blanks == s;
    } else {
      assert (s + blanks)[..|s + blanks| - 1] == s + blanks[..|blanks| - 1];
      StripRightBlanks(s, blanks[..|blanks| - 1]);
    }
  }

  lemma {:induction false} FindAt(s: string, c: char, i: nat)
    requires i < |s| && s[i] == c && c !in s[..i]
    ensures Find(s, c) == i
  {
    if i > 0 {
      assert s[..i][0] == s[0] && s[1..][..i - 1] == s[..i][1..];
      FindAt(s[1..], c, i - 1);
    }
  }

  /** A printed tag is read back as its opaque part, whatever blanks surround it and whatever quotes it holds. */
  lemma OpaqueRoundTrip(item: Item)
    requires Legible(item)
    ensures OpaqueTag(PrintItem(item)) == item.tag.text
  {
    var printed := Print(item.tag);
    assert PrintItem(item) == item.before + (printed + item.after);
    assert !IsBlank((printed + item.after)[0]) && !IsBlank(printed[|printed| - 1]);
    StripLeftBlanks(item.before, printed + item.after);
    StripRightBlanks(printed, item.after);
    assert Strip(PrintItem(item)) == printed;
    PrefixIsDropped(item.tag, "");
    assert printed + "" == printed && PrintText(item.tag) + "" == PrintText(item.tag);
  }

  lemma PrefixIsDropped(tag: Tag, next: string)
    requires !tag.quoted ==> Plain(tag)
    requires next == "" || White(next[0]) || next[0] == ','
    ensures DropWeak(Print(tag) + next) == PrintText(tag) + next
  {
    var prefix, text := PrintPrefix(tag.prefix), PrintText(tag) + next;
    assert Print(tag) + next == prefix + text;
    assert prefix != "" ==> (prefix + text)[..2] == prefix && (prefix + text)[2..] == text;
  }

  lemma SkipToText(item: Item, next: string)
    requires Legible(item) && Ends(next)
    ensures DropWeak(StripLeft(PrintItem(item) + next)) == PrintText(item.tag) + (item.after + next)
  {
    var printed := Print(item.tag) + (item.after + next);
    assert PrintItem(item) + next == item.before + printed;
    StripLeftBlanks(item.before, printed);
    PrefixIsDropped(item.tag, item.after + next);
  }

  lemma CloseQuote(text: string, after: string)
    requires '"' !in text
    ensures var quoted := "\"" + text + "\"" + after;
            && Find(quoted[1..], '"') == |text|
            && quoted[1..1 + |text|] == text
            && quoted[|text| + 2..] == after
  {
    var quoted := "\"" + text + "\"" + after;
    assert quoted[1..] == text + "\"" + after;
    assert quoted[1..][..|text|] == text;
    FindAt(quoted[1..], '"', |text|);
  }

  /** The member that a tag is read as. */
  function MemberOf(tag: Tag): Member {
    if tag.quoted then Quoted(tag.text) else Bare(tag.text)
  }

  lemma ScanQuoted(item: Item, next: string)
    requires Printable(item) && Ends(next) && item.tag.quoted
    ensures ScanMember(PrintItem(item) + next) == Match(Quoted(item.tag.text), if next == [] then None else Some(next[1..]))
  {
    SkipToText(item, next);
    CloseQuote(item.tag.text, item.after + next);
    StripLeftBlanks(item.after, next);
  }

  lemma ScanBare(item: Item, next: string)
    requires Printable(item) && Ends(next) && !item.tag.quoted
    ensures ScanMember(PrintItem(item) + next) == Match(Bare(item.tag.text), if next == [] then None else Some(next[1..]))
  {
    SkipToText(item, next);
    CommaAfter(item.tag.text, item.after, next);
    StripRightBlanks(item.tag.text, item.after);
  }

  lemma CommaAfter(text: string, after: string, next: string)
    requires ',' !in text && AllBlank(after) && Ends(next)
    ensures var t, comma := text + (after + next), |text| + |after|;
            && Find(t, ',') == comma && t[..comma] == text + after
            && (comma < |t| ==> next != [] && t[comma + 1..] == next[1..]) && (comma == |t| ==> next == [])
  {
    var t, comma := text + (after + next), |text| + |after|;
    assert t[..comma] == text + after && t[comma..] == next;
    assert ',' !in t[..comma];
    if next != [] {
      FindAt(t, ',', comma);
      assert t[comma + 1..] == t[comma..][1..];
    }
  }

  /** The first member of a text that starts with a printed tag, and goes on with a comma or nothing. */
  lemma ScanPrinted(item: Item, next: string)
    requires Printable(item) && Ends(next)
    ensures ScanMember(PrintItem(item) + next) == Match(MemberOf(item.tag), if next == [] then None else Some(next[1..]))
  {
    if item.tag.quoted {
      ScanQuoted(item, next);
    } else {
      ScanBare(item, next);
    }
  }

  lemma {:induction false} MembersOfPrinted(items: seq<Item>)
    requires items != [] && forall i :: 0 <= i < |items| ==> Printable(items[i])
    ensures Members(PrintList(items)) == seq(|items|, i requires 0 <= i < |items| => MemberOf(items[i].tag))
  {
    var next := if |items| == 1 then "" else "," + PrintList(items[1..]);
    assert PrintList(items) == PrintItem(items[0]) + next;
    ScanPrinted(items[0], next);
    if |items| > 1 {
      MembersOfPrinted(items[1..]);
      assert next[1..] == PrintList(items[1..]);
    }
  }

  lemma {:induction false} StripOfNonBlank(s: string, i: nat)
    requires i < |s| && !IsBlank(s[i])
    ensures Strip(s) != []
    decreases |s|
  {
    if IsBlank(s[0]) {
      StripOfNonBlank(s[1..], i - 1);
    } else {
      StripRightKeeps(s, 0);
    }
  }

  lemma {:induction false} StripRightKeeps(s: string, i: nat)
    requires i < |s| && !IsBlank(s[i])
    ensures StripRight(s) != []
    decreases |s|
  {
    if IsBlank(s[|s| - 1]) {
      StripRightKeeps(s[..|s| - 1], i);
    }
  }

  /**
   * A list of weak or strong tags, quoted or bare, printed with any blanks around its commas, is read as exactly its
   * opaque parts, even when quoted ones hold commas or blanks, or when one of them is a star.
   */
  lemma ListRoundTrip(items: seq<Item>)
    requires items != [] && forall i :: 0 <= i < |items| ==> Printable(items[i])
    ensures Parsed(Some(PrintList(items))) == Some(EntityTags(set i | 0 <= i < |items| :: items[i].tag.text, false))
  {
    MembersOfPrinted(items);
    ListIsNotBlank(items);
    ListedQuoted(Members(PrintList(items)), items);
  }

  lemma ListedQuoted(members: seq<Member>, items: seq<Item>)
    requires |members| == |items|
    requires forall i :: 0 <= i < |items| ==> Printable(items[i]) && members[i] == MemberOf(items[i].tag)
    ensures Bare("*") !in members
    ensures Listed(members) == set i | 0 <= i < |items| :: items[i].tag.text
  {
    forall i | 0 <= i < |items|
      ensures items[i].tag.text in Listed(members)
    {
      assert members[i] in members;
    }
  }

  lemma ListIsNotBlank(items: seq<Item>)
    requires items != [] && Legible(items[0])
    ensures Strip(PrintList(items)) != []
  {
    var first := PrintItem(items[0]);
    var last := |items[0].before| + |Print(items[0].tag)| - 1;
    assert first[last] == Print(items[0].tag)[|Print(items[0].tag)| - 1] && !IsBlank(first[last]);
    assert PrintList(items)[last] == first[last];
    StripOfNonBlank(PrintList(items), last);
  }

  /** A version matches a list of tags by the weak comparison: one of them has the same opaque part. */
  lemma MatchesIsWeakComparison(items: seq<Item>, version: Item)
    requires items != [] && forall i :: 0 <= i < |items| ==> Printable(items[i])
    requires Legible(version)
    ensures Parsed(Some(PrintList(items))).Some?
    ensures Matches(Parsed(Some(PrintList(items))).value, Some(PrintItem(version))) <==>
              exists i :: 0 <= i < |items| && items[i].tag.text == version.tag.text
  {
    ListRoundTrip(items);
    OpaqueRoundTrip(version);
  }

  // -- Headers as a client writes them ----------------------------------

  /** No header, a star between blanks, or a list of tags. */
  datatype Header = Absent | Star(before: string, after: string) | Tags(items: seq<Item>)

  predicate Writable(header: Header) {
    match header
    case Absent => true
    case Star(before, after) => AllBlank(before) && AllBlank(after)
    case Tags(items) => items != [] && forall i :: 0 <= i < |items| ==> Printable(items[i])
  }

  function Written(header: Header): Option<string>
    requires Writable(header)
  {
    match header
    case Absent => None
    case Star(before, after) => Some(before + "*" + after)
    case Tags(items) => Some(PrintList(items))
  }

  /** Whether a header names the version: a star names any representation, and a list the opaque parts it holds. */
  predicate Names(header: Header, version: Option<Item>) {
    match header
    case Absent => false
    case Star(_, _) => true
    case Tags(items) => version.Some? && exists i :: 0 <= i < |items| && items[i].tag.text == version.value.tag.text
  }

  lemma StarIsRead(before: string, after: string)
    requires AllBlank(before) && AllBlank(after)
    ensures Parsed(Some(before + "*" + after)) == Some(EntityTags({}, true))
  {
    var s, t := before + "*" + after, "*" + after;
    assert s == before + t;
    StripLeftBlanks(before, t);
    StripRightBlanks("*", after);
    assert ',' !in t && Find(t, ',') == |t|;
    assert t[..|t|] == t;
    assert ScanMember(s) == Match(Bare("*"), None);
    assert Bare("*") in Members(s);
    assert Strip(s) == "*";
  }

  lemma WrittenIsRead(header: Header, version: Option<Item>)
    requires Writable(header)
    requires version.Some? ==> Legible(version.value)
    ensures var parsed := Parsed(Written(header));
            && (parsed.None? <==> header.Absent?)
            && (parsed.Some? ==>
                  (Matches(parsed.value, if version.Some? then Some(PrintItem(version.value)) else None) <==> Names(header, version)))
  {
    match header
    case Absent =>
    case Star(before, after) => StarIsRead(before, after);
    case Tags(items) =>
      ListRoundTrip(items);
      if version.Some? {
        MatchesIsWeakComparison(items, version.value);
      }
  }

  /**
   * A request goes on exactly when its If-Match is absent or names the version, and its If-None-Match does not; a GET
   * that only fails on its If-None-Match is answered 304, and any other failure 412.
   */
  lemma ConditionsAreExact(ifMatch: Header, ifNoneMatch: Header, version: Option<Item>, verb: Verb)
    requires Writable(ifMatch) && Writable(ifNoneMatch)
    requires version.Some? ==> Legible(version.value)
    ensures var answer := Check(Conditions(Written(ifMatch), Written(ifNoneMatch)),
                                if version.Some? then Some(PrintItem(version.value)) else None, verb);
            var met := ifMatch.Absent? || Names(ifMatch, version);
            var unmodified := Names(ifNoneMatch, version);
            && (answer == Ok(true) <==> met && !unmodified)
            && (answer == Ok(false) <==> met && unmodified && verb == Get)
            && (answer.Err? ==> answer == Err(PreconditionFailed))
  {
    WrittenIsRead(ifMatch, version);
    WrittenIsRead(ifNoneMatch, version);
    CheckDecides(Conditions(Written(ifMatch), Written(ifNoneMatch)), if version.Some? then Some(PrintItem(version.value)) else None, verb);
  }

  /** The versions of the storage are weak tags, and they stay distinct once reduced to their opaque parts. */
  lemma OpaqueVersionInjective(m: nat, n: nat)
    requires OpaqueTag(Version(m)) == OpaqueTag(Version(n))
    ensures m == n
  {
    VersionIsPrinted(m);
    VersionIsPrinted(n);
    DecimalInjective(m, n);
  }

  lemma Regroup(a: string, b: string, c: string)
    ensures a + (b + c) == a + b + c
    ensures "" + a + "" == a
  {
  }

  lemma VersionIsATag(n: nat)
    ensures Print(Tag(Upper, Decimal(n), true)) == Version(n)
    ensures PrintItem(Item("", Tag(Upper, Decimal(n), true), "")) == Version(n)
  {
    var digits := Decimal(n);
    Regroup("W/", "\"", digits + "\"");
    Regroup("W/\"", digits, "\"");
    Regroup("\"", digits, "\"");
    assert "W/" + "\"" == "W/\"";
    Regroup(Version(n), "", "");
  }

  lemma VersionIsPrinted(n: nat)
    ensures OpaqueTag(Version(n)) == Decimal(n)
  {
    VersionIsATag(n);
    OpaqueRoundTrip(Item("", Tag(Upper, Decimal(n), true), ""));
  }
}
