/** How the browser and the server recognise field names; both share one alias table. */
module SearchNames {
  import opened Common
  import opened Text
  import opened SearchLexer
  import opened SearchParser
  import opened SearchBuilder
  import opened SearchRoundTrip

  /** The alias table; a word that is no alias names no field. */
  function Alias(s: string): Option<Field> {
    if s == "all" || s == "any" || s == "text" then Some(All)
    else if s == "ip" || s == "addr" || s == "address" then Some(Ip)
    else if s == "port" then Some(Port)
    else if s == "country" || s == "страна" then Some(Country)
    else if s == "city" || s == "город" then Some(City)
    else if s == "action" || s == "act" || s == "действие" || s == "rule" || s == "policy" || s == "правило" then Some(Action)
    else if s == "device" || s == "host" || s == "fw" || s == "устройство" || s == "мсэ" then Some(Device)
    else if s == "src_ip" || s == "attacker" || s == "attacker_ip" || s == "атакующий" then Some(SrcIp)
    else if s == "dst_ip" || s == "target" || s == "target_ip" || s == "цель" then Some(DstIp)
    else if s == "src_port" || s == "spt" || s == "attacker_port" then Some(SrcPort)
    else if s == "dst_port" || s == "dpt" || s == "target_port" then Some(DstPort)
    else if s == "src_country" || s == "attacker_country" then Some(SrcCountry)
    else if s == "dst_country" || s == "target_country" then Some(DstCountry)
    else if s == "src_city" || s == "attacker_city" then Some(SrcCity)
    else if s == "dst_city" || s == "target_city" then Some(DstCity)
    else if s == "src" || s == "source" || s == "from" then Some(Src)
    else if s == "dst" || s == "dest" || s == "destination" || s == "to" then Some(Dst)
    else if s == "proto" || s == "protocol" then Some(Proto)
    else if s == "zone" then Some(Zone)
    else None
  }

  /** norm lower-cases, applies compatibility normalisation and trims. */
  function BrowserNames(norm: string -> string): Names {
    Names(w => if w == "" then Some(All) else Alias(norm(w)), w => norm(w) == "contains")
  }

  /** The field names are already normalised. */
  ghost predicate FixesNames(norm: string -> string) {
    norm("") == "" && forall f :: norm(FieldName(f)) == FieldName(f)
  }

  function MapChars(lower: char -> char, s: string): (r: string)
    ensures |r| == |s| && forall k :: 0 <= k < |s| ==> r[k] == lower(s[k])
  {
    if s == "" then "" else [lower(s[0])] + MapChars(lower, s[1..])
  }

  /** Case folding of one letter; the long s folds to s. */
  predicate FoldsTo(c: char, t: char) {
    LowerAsciiChar(c) == t || (t == 's' && c == '\U{17f}')
  }

  predicate FoldsToContains(w: string) {
    |w| == 8 && forall k :: 0 <= k < 8 ==> FoldsTo(w[k], "contains"[k])
  }

  function ServerNames(lower: char -> char): Names {
    Names(w => Alias(MapChars(lower, Trim(GoSpace, w))), w => FoldsToContains(w))
  }

  /** On ASCII letters lower is the usual one. */
  ghost predicate LowersAscii(lower: char -> char) {
    forall c: char :: c < '\U{80}' ==> lower(c) == LowerAsciiChar(c)
  }

  lemma AliasOfAttacker(f: Field)
    requires f.SrcIp? || f.SrcPort?
    ensures Alias(FieldName(f)) == Some(f)
  {
  }

  lemma AliasOfSrcCountry()
    ensures Alias(FieldName(SrcCountry)) == Some(SrcCountry)
  {
  }

  lemma AliasOfSrcCity()
    ensures Alias(FieldName(SrcCity)) == Some(SrcCity)
  {
  }

  lemma AliasOfTarget(f: Field)
    requires f.DstIp? || f.DstPort?
    ensures Alias(FieldName(f)) == Some(f)
  {
  }

  lemma AliasOfDstCountry()
    ensures Alias(FieldName(DstCountry)) == Some(DstCountry)
  {
  }

  lemma AliasOfDstCity()
    ensures Alias(FieldName(DstCity)) == Some(DstCity)
  {
  }

  lemma AliasOfEither(f: Field)
    requires f.All? || f.Ip? || f.Port? || f.Country? || f.City?
    ensures Alias(FieldName(f)) == Some(f)
  {
  }

  lemma AliasOfOther(f: Field)
    requires f.Action? || f.Device?
    ensures Alias(FieldName(f)) == Some(f)
  {
  }

  lemma AliasOfSrc()
    ensures Alias(FieldName(Src)) == Some(Src)
  {
  }

  lemma AliasOfDst()
    ensures Alias(FieldName(Dst)) == Some(Dst)
  {
  }

  lemma AliasOfProto(f: Field)
    requires f.Proto?
    ensures Alias(FieldName(f)) == Some(f)
  {
  }

  lemma AliasOfZone(f: Field)
    requires f.Zone?
    ensures Alias(FieldName(f)) == Some(f)
  {
  }

  /** The aliases of each field, as the field definitions list them. */
  predicate IsAliasOf(f: Field, s: string) {
    match f
    case All => s == "all" || s == "any" || s == "text"
    case Ip => s == "ip" || s == "addr" || s == "address"
    case Port => s == "port"
    case Country => s == "country" || s == "страна"
    case City => s == "city" || s == "город"
    case Action => s == "action" || s == "act" || s == "действие" || s == "rule" || s == "policy" || s == "правило"
    case Device => s == "device" || s == "host" || s == "fw" || s == "устройство" || s == "мсэ"
    case SrcIp => s == "src_ip" || s == "attacker" || s == "attacker_ip" || s == "атакующий"
    case DstIp => s == "dst_ip" || s == "target" || s == "target_ip" || s == "цель"
    case SrcPort => s == "src_port" || s == "spt" || s == "attacker_port"
    case DstPort => s == "dst_port" || s == "dpt" || s == "target_port"
    case SrcCountry => s == "src_country" || s == "attacker_country"
    case DstCountry => s == "dst_country" || s == "target_country"
    case SrcCity => s == "src_city" || s == "attacker_city"
    case DstCity => s == "dst_city" || s == "target_city"
    case Src => s == "src" || s == "source" || s == "from"
    case Dst => s == "dst" || s == "dest" || s == "destination" || s == "to"
    case Proto => s == "proto" || s == "protocol"
    case Zone => s == "zone"
  }

  lemma AliasesOfAll(s: string)
    requires IsAliasOf(All, s)
    ensures Alias(s) == Some(All)
  {
  }

  lemma AliasesOfIp(s: string)
    requires IsAliasOf(Ip, s)
    ensures Alias(s) == Some(Ip)
  {
  }

  lemma AliasesOfPort(s: string)
    requires IsAliasOf(Port, s)
    ensures Alias(s) == Some(Port)
  {
  }

  lemma AliasesOfCountry(s: string)
    requires IsAliasOf(Country, s)
    ensures Alias(s) == Some(Country)
  {
  }

  lemma AliasesOfCity(s: string)
    requires IsAliasOf(City, s)
    ensures Alias(s) == Some(City)
  {
  }

  lemma AliasesOfAction(s: string)
    requires IsAliasOf(Action, s)
    ensures Alias(s) == Some(Action)
  {
  }

  lemma AliasesOfDevice(s: string)
    requires IsAliasOf(Device, s)
    ensures Alias(s) == Some(Device)
  {
  }

  lemma SrcIpAlias0()
    ensures Alias("src_ip") == Some(SrcIp)
  {
  }

  lemma SrcIpAlias1()
    ensures Alias("attacker") == Some(SrcIp)
  {
  }

  lemma SrcIpAlias2()
    ensures Alias("attacker_ip") == Some(SrcIp)
  {
  }

  lemma SrcIpAlias3()
    ensures Alias("атакующий") == Some(SrcIp)
  {
  }

  lemma AliasesOfSrcIp(s: string)
    requires IsAliasOf(SrcIp, s)
    ensures Alias(s) == Some(SrcIp)
  {
    hide Alias;
    SrcIpAlias0();
    SrcIpAlias1();
    SrcIpAlias2();
    SrcIpAlias3();
  }

  lemma DstIpAlias0()
    ensures Alias("dst_ip") == Some(DstIp)
  {
  }

  lemma DstIpAlias1()
    ensures Alias("target") == Some(DstIp)
  {
  }

  lemma DstIpAlias2()
    ensures Alias("target_ip") == Some(DstIp)
  {
  }

  lemma DstIpAlias3()
    ensures Alias("цель") == Some(DstIp)
  {
  }

  lemma AliasesOfDstIp(s: string)
    requires IsAliasOf(DstIp, s)
    ensures Alias(s) == Some(DstIp)
  {
    hide Alias;
    DstIpAlias0();
    DstIpAlias1();
    DstIpAlias2();
    DstIpAlias3();
  }

  lemma SrcPortAlias0()
    ensures Alias("src_port") == Some(SrcPort)
  {
  }

  lemma SrcPortAlias1()
    ensures Alias("spt") == Some(SrcPort)
  {
  }

  lemma SrcPortAlias2()
    ensures Alias("attacker_port") == Some(SrcPort)
  {
  }

  lemma AliasesOfSrcPort(s: string)
    requires IsAliasOf(SrcPort, s)
    ensures Alias(s) == Some(SrcPort)
  {
    hide Alias;
    SrcPortAlias0();
    SrcPortAlias1();
    SrcPortAlias2();
  }

  lemma DstPortAlias0()
    ensures Alias("dst_port") == Some(DstPort)
  {
  }

  lemma DstPortAlias1()
    ensures Alias("dpt") == Some(DstPort)
  {
  }

  lemma DstPortAlias2()
    ensures Alias("target_port") == Some(DstPort)
  {
  }

  lemma AliasesOfDstPort(s: string)
    requires IsAliasOf(DstPort, s)
    ensures Alias(s) == Some(DstPort)
  {
    hide Alias;
    DstPortAlias0();
    DstPortAlias1();
    DstPortAlias2();
  }

  lemma SrcCountryAlias0()
    ensures Alias("src_country") == Some(SrcCountry)
  {
  }

  lemma SrcCountryAlias1()
    ensures Alias("attacker_country") == Some(SrcCountry)
  {
  }

  lemma AliasesOfSrcCountry(s: string)
    requires IsAliasOf(SrcCountry, s)
    ensures Alias(s) == Some(SrcCountry)
  {
    hide Alias;
    SrcCountryAlias0();
    SrcCountryAlias1();
  }

  lemma DstCountryAlias0()
    ensures Alias("dst_country") == Some(DstCountry)
  {
  }

  lemma DstCountryAlias1()
    ensures Alias("target_country") == Some(DstCountry)
  {
  }

  lemma AliasesOfDstCountry(s: string)
    requires IsAliasOf(DstCountry, s)
    ensures Alias(s) == Some(DstCountry)
  {
    hide Alias;
    DstCountryAlias0();
    DstCountryAlias1();
  }

  lemma SrcCityAlias0()
    ensures Alias("src_city") == Some(SrcCity)
  {
  }

  lemma SrcCityAlias1()
    ensures Alias("attacker_city") == Some(SrcCity)
  {
  }

  lemma AliasesOfSrcCity(s: string)
    requires IsAliasOf(SrcCity, s)
    ensures Alias(s) == Some(SrcCity)
  {
    hide Alias;
    SrcCityAlias0();
    SrcCityAlias1();
  }

  lemma DstCityAlias0()
    ensures Alias("dst_city") == Some(DstCity)
  {
  }

  lemma DstCityAlias1()
    ensures Alias("target_city") == Some(DstCity)
  {
  }

  lemma AliasesOfDstCity(s: string)
    requires IsAliasOf(DstCity, s)
    ensures Alias(s) == Some(DstCity)
  {
    hide Alias;
    DstCityAlias0();
    DstCityAlias1();
  }

  lemma SrcAlias0()
    ensures Alias("src") == Some(Src)
  {
  }

  lemma SrcAlias1()
    ensures Alias("source") == Some(Src)
  {
  }

  lemma SrcAlias2()
    ensures Alias("from") == Some(Src)
  {
  }

  lemma AliasesOfSrc(s: string)
    requires IsAliasOf(Src, s)
    ensures Alias(s) == Some(Src)
  {
    hide Alias;
    SrcAlias0();
    SrcAlias1();
    SrcAlias2();
  }

  lemma DstAlias0()
    ensures Alias("dst") == Some(Dst)
  {
  }

  lemma DstAlias1()
    ensures Alias("dest") == Some(Dst)
  {
  }

  lemma DstAlias2()
    ensures Alias("destination") == Some(Dst)
  {
  }

  lemma DstAlias3()
    ensures Alias("to") == Some(Dst)
  {
  }

  lemma AliasesOfDst(s: string)
    requires IsAliasOf(Dst, s)
    ensures Alias(s) == Some(Dst)
  {
    hide Alias;
    DstAlias0();
    DstAlias1();
    DstAlias2();
    DstAlias3();
  }

  lemma ProtoAlias0()
    ensures Alias("proto") == Some(Proto)
  {
  }

  lemma ProtoAlias1()
    ensures Alias("protocol") == Some(Proto)
  {
  }

  lemma AliasesOfProto(s: string)
    requires IsAliasOf(Proto, s)
    ensures Alias(s) == Some(Proto)
  {
    hide Alias;
    ProtoAlias0();
    ProtoAlias1();
  }

  lemma AliasesOfZone(s: string)
    requires IsAliasOf(Zone, s)
    ensures Alias(s) == Some(Zone)
  {
  }

  lemma ListedIsAlias(f: Field, s: string)
    requires IsAliasOf(f, s)
    ensures Alias(s) == Some(f)
  {
    hide Alias, IsAliasOf;
    match f
    case All => AliasesOfAll(s);
    case Ip => AliasesOfIp(s);
    case Port => AliasesOfPort(s);
    case Country => AliasesOfCountry(s);
    case City => AliasesOfCity(s);
    case Action => AliasesOfAction(s);
    case Device => AliasesOfDevice(s);
    case SrcIp => AliasesOfSrcIp(s);
    case DstIp => AliasesOfDstIp(s);
    case SrcPort => AliasesOfSrcPort(s);
    case DstPort => AliasesOfDstPort(s);
    case SrcCountry => AliasesOfSrcCountry(s);
    case DstCountry => AliasesOfDstCountry(s);
    case SrcCity => AliasesOfSrcCity(s);
    case DstCity => AliasesOfDstCity(s);
    case Src => AliasesOfSrc(s);
    case Dst => AliasesOfDst(s);
    case Proto => AliasesOfProto(s);
    case Zone => AliasesOfZone(s);
  }

  lemma AliasIsListed(s: string)
    requires Alias(s).Some?
    ensures IsAliasOf(Alias(s).value, s)
  {
  }

  /** A word stands for a field exactly when the field's definition lists it. */
  lemma AliasExactly(f: Field, s: string)
    ensures Alias(s) == Some(f) <==> IsAliasOf(f, s)
  {
    hide Alias, IsAliasOf;
    if IsAliasOf(f, s) {
      ListedIsAlias(f, s);
    }
    if Alias(s) == Some(f) {
      AliasIsListed(s);
    }
  }

  /** Every field's own name is one of its aliases. */
  lemma AliasOfName(f: Field)
    ensures Alias(FieldName(f)) == Some(f)
  {
    hide Alias, FieldName;
    match f
    case SrcIp | SrcPort => AliasOfAttacker(f);
    case SrcCountry => AliasOfSrcCountry();
    case SrcCity => AliasOfSrcCity();
    case DstIp | DstPort => AliasOfTarget(f);
    case DstCountry => AliasOfDstCountry();
    case DstCity => AliasOfDstCity();
    case All | Ip | Port | Country | City => AliasOfEither(f);
    case Action | Device => AliasOfOther(f);
    case Src => AliasOfSrc();
    case Dst => AliasOfDst();
    case Proto => AliasOfProto(f);
    case Zone => AliasOfZone(f);
  }

  /** The server takes for "contains" the eight letters in either case, the long s for the last one included. */
  lemma ContainsExactly(w: string)
    ensures FoldsToContains(w) <==>
      |w| == 8 && w[0] in "cC" && w[1] in "oO" && w[2] in "nN" && w[3] in "tT" && w[4] in "aA" && w[5] in "iI" && w[6] in "nN" &&
      w[7] in "sS\U{17f}"
  {
    if |w| == 8 {
      forall k | 0 <= k < 8
        ensures FoldsTo(w[k], "contains"[k]) <==>
          w[k] in ["cC", "oO", "nN", "tT", "aA", "iI", "nN", "sS\U{17f}"][k]
      {
      }
    }
  }

  lemma NoAliasLikeContains(s: string)
    requires |s| == 8 && s[0] == 'c'
    ensures Alias(s).None?
  {
  }

  lemma BrowserKnowsFields(norm: string -> string)
    requires FixesNames(norm)
    ensures KnowsFields(BrowserNames(norm)) && ContainsIsNoField(BrowserNames(norm))
  {
    hide Alias;
    forall f
      ensures BrowserNames(norm).field(FieldName(f)) == Some(f)
    {
      AliasOfName(f);
      FieldNameLead(f);
    }
    NoAliasLikeContains("contains");
  }

  lemma LowerKeeps(lower: char -> char, name: string)
    requires LowersAscii(lower) && name != ""
    requires forall k :: 0 <= k < |name| ==> 'a' <= name[k] <= 'z' || name[k] == '_'
    ensures MapChars(lower, Trim(GoSpace, name)) == name
  {
    assert Trimmed(GoSpace, name);
  }

  lemma NameLetters(f: Field)
    ensures var name := FieldName(f); name != "" && forall k :: 0 <= k < |name| ==> 'a' <= name[k] <= 'z' || name[k] == '_'
  {
  }

  lemma ServerKnowsField(lower: char -> char, f: Field)
    requires LowersAscii(lower)
    ensures Alias(MapChars(lower, Trim(GoSpace, FieldName(f)))) == Some(f)
  {
    hide Alias, FieldName, MapChars, Trim;
    NameLetters(f);
    LowerKeeps(lower, FieldName(f));
    AliasOfName(f);
  }

  lemma ServerContainsIsNoField(lower: char -> char, w: string)
    requires LowersAscii(lower) && FoldsToContains(w)
    ensures Alias(MapChars(lower, Trim(GoSpace, w))).None?
  {
    hide Alias;
    assert FoldsTo(w[0], "contains"[0]) && FoldsTo(w[7], "contains"[7]);
    assert Trimmed(GoSpace, w);
    NoAliasLikeContains(MapChars(lower, w));
  }

  lemma ServerKnowsFields(lower: char -> char)
    requires LowersAscii(lower)
    ensures KnowsFields(ServerNames(lower)) && ContainsIsNoField(ServerNames(lower))
  {
    hide Alias, FoldsToContains, FieldName;
    forall f
      ensures ServerNames(lower).field(FieldName(f)) == Some(f)
    {
      ServerKnowsField(lower, f);
    }
    forall w | ServerNames(lower).contains(w)
      ensures ServerNames(lower).field(w).None?
    {
      ServerContainsIsNoField(lower, w);
    }
  }

  /** On the server, AND between two conditions may always be left out. */
  lemma ServerJuxtaposition(lower: char -> char, ts: seq<Token>)
    requires LowersAscii(lower) && ParseTokens(ServerNames(lower), ts).Success?
    ensures ParseTokens(ServerNames(lower), DropAnds(ts)) == ParseTokens(ServerNames(lower), ts)
  {
    hide ParseTokens;
    ServerKnowsFields(lower);
    JuxtapositionMeansAnd(ServerNames(lower), ts);
  }
}
