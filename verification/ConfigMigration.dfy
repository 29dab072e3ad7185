/** Migrating a loaded configuration: filling in the fields it does not have yet. */
module ConfigMigration {

  datatype Field =
    | EnableLazyLoading | MaxFileSize | MaxClientLoad
    | AutoInlineExtensions | AutoInlineSeeded
    | PreviewTextExtensions | UploadInlineExtensions
    | PasswordMinLength | PasswordMinUppercase | PasswordMinLowercase | PasswordMinDigits | PasswordMinSpecial
    | McpEnabled | McpDisableWrites | McpTextExtensions | McpGlobalMaxReadBytes
    | McpSummaryMaxKeys | McpSummaryPrefixScanPages | McpListPageSize | McpListMaxPageSize
    | PresignedUrlDefaultTtl | PresignedUrlMaxTtl
    | Roles | DisableDeletion | Other(name: string)

  /** A JSON value, as far as the migration looks at it. */
  datatype Value = Strings(items: seq<string>) | Number(n: int) | Flag(b: bool) | Json(text: string)

  type Config = map<Field, Value>

  /** The defaults that come from the environment. */
  datatype Env = Env(lazyLoading: bool, maxFileSize: int, maxClientLoad: int, defaultTtl: int, maxTtl: int)

  function PreviewDefaults(): seq<string> { ["txt", "md", "json", "yaml", "yml", "log", "csv"] }
  function InlineDefaults(): seq<string> { ["pdf", "png", "jpg", "jpeg", "gif", "webp"] }

  /** `legacy + [e for e in defaults if e not in legacy]` */
  function Missing(legacy: seq<string>, defaults: seq<string>): seq<string> {
    if defaults == [] then []
    else (if defaults[0] in legacy then [] else [defaults[0]]) + Missing(legacy, defaults[1..])
  }

  /** The legacy list of inline extensions, if it is there and is a list. */
  predicate HasLegacyList(c: Config) {
    AutoInlineExtensions in c && c[AutoInlineExtensions].Strings?
  }

  // ------------------------------------------------- what a migration is

  /** Splitting the legacy list in two; done once, marked by the preview field. */
  function SplitExtensions(c: Config): Config {
    if PreviewTextExtensions in c then c else
      var kept := c - {AutoInlineExtensions, AutoInlineSeeded};
      var legacy := if HasLegacyList(c) then c[AutoInlineExtensions].items else [];
      var preview := if HasLegacyList(c) then legacy else PreviewDefaults();
      var upload :=
        if UploadInlineExtensions in c then c[UploadInlineExtensions]
        else Strings(legacy + Missing(legacy, InlineDefaults()));
      kept[PreviewTextExtensions := Strings(preview)][UploadInlineExtensions := upload]
  }

  type Table = seq<(Field, Value)>

  /** Add every field of the table that is missing, with the table's value. */
  function Fill(c: Config, table: Table): Config {
    if table == [] then c else
      var init := Fill(c, table[..|table| - 1]);
      var (f, v) := table[|table| - 1];
      if f in init then init else init[f := v]
  }

  predicate HasAll(c: Config, table: Table) {
    forall i :: 0 <= i < |table| ==> table[i].0 in c
  }

  predicate DistinctFields(table: Table) {
    forall i, j :: 0 <= i < j < |table| ==> table[i].0 != table[j].0
  }

  /** The fields filled in before the extension lists are split, and after. */
  function FirstFields(env: Env): Table {
    [(EnableLazyLoading, Flag(env.lazyLoading)),
     (MaxFileSize, Number(env.maxFileSize)),
     (MaxClientLoad, Number(env.maxClientLoad))]
  }

  function LaterFields(env: Env): Table {
    [(PasswordMinLength, Number(8)),
     (PasswordMinUppercase, Number(1)),
     (PasswordMinLowercase, Number(1)),
     (PasswordMinDigits, Number(1)),
     (PasswordMinSpecial, Number(0)),
     (McpEnabled, Flag(true)),
     (McpDisableWrites, Flag(false)),
     (McpTextExtensions, Strings([])),
     (McpGlobalMaxReadBytes, Number(10_485_760)),
     (McpSummaryMaxKeys, Number(50_000)),
     (McpSummaryPrefixScanPages, Number(20)),
     (McpListPageSize, Number(1000)),
     (McpListMaxPageSize, Number(10_000)),
     (PresignedUrlDefaultTtl, Number(env.defaultTtl)),
     (PresignedUrlMaxTtl, Number(env.maxTtl))]
  }

  function Migrated(c: Config, env: Env): Config {
    Fill(SplitExtensions(Fill(c, FirstFields(env))), LaterFields(env))
  }

  /** Nothing is missing: every field of both tables and the marker of the split are there. */
  predicate IsMigrated(c: Config, env: Env) {
    HasAll(c, FirstFields(env)) && PreviewTextExtensions in c && HasAll(c, LaterFields(env))
  }

  lemma FillStep(c: Config, table: Table, f: Field, v: Value)
    ensures Fill(c, table + [(f, v)]) == if f in Fill(c, table) then Fill(c, table) else Fill(c, table)[f := v]
    ensures HasAll(c, table + [(f, v)]) <==> HasAll(c, table) && f in c
  {
    assert (table + [(f, v)])[..|table|] == table;
    assert (table + [(f, v)])[|table|].0 == f;
  }

  lemma {:induction false} FillKeeps(c: Config, table: Table)
    ensures forall f :: f in c ==> f in Fill(c, table) && Fill(c, table)[f] == c[f]
  {
    if table != [] { FillKeeps(c, table[..|table| - 1]); }
  }

  lemma {:induction false} FillAdds(c: Config, table: Table)
    ensures HasAll(Fill(c, table), table)
    ensures forall f :: f in Fill(c, table) ==> f in c || exists i :: 0 <= i < |table| && table[i].0 == f
  {
    if table != [] {
      var init := table[..|table| - 1];
      FillAdds(c, init);
      var r := Fill(c, table);
      forall i | 0 <= i < |table| ensures table[i].0 in r {
        if i < |init| { assert init[i].0 in Fill(c, init); }
      }
      forall f | f in r ensures f in c || exists i :: 0 <= i < |table| && table[i].0 == f {
        if f in Fill(c, init) && f !in c {
          var i :| 0 <= i < |init| && init[i].0 == f;
          assert table[i].0 == f;
        } else if f !in c {
          assert table[|table| - 1].0 == f;
        }
      }
    }
  }

  lemma {:induction false} FillNothing(c: Config, table: Table)
    requires HasAll(c, table)
    ensures Fill(c, table) == c
  {
    if table != [] { FillNothing(c, table[..|table| - 1]); }
  }

  // ------------------------------------------------- the migration, in place

  class Dict {
    var entries: Config

    constructor (config: Config)
      ensures entries == config
    {
      entries := config;
    }

    /**
     * `if key not in config: config[key] = value; config_modified = True`,
     * as the next row of the table being filled in on top of `start`.
     */
    method AddIfMissing(f: Field, v: Value, modified: bool, ghost start: Config, ghost table: Table, ghost i: nat)
      returns (modified': bool)
      requires DistinctFields(table) && i < |table| && table[i] == (f, v)
      requires entries == Fill(start, table[..i]) && modified == !HasAll(start, table[..i])
      modifies this
      ensures entries == Fill(start, table[..i + 1]) && modified' == !HasAll(start, table[..i + 1])
    {
      hide Fill;
      assert table[..i + 1] == table[..i] + [(f, v)];
      FillStep(start, table[..i], f, v);
      FillKeeps(start, table[..i]);
      FillAdds(start, table[..i]);
      modified' := modified;
      if f !in entries {
        entries := entries[f := v];
        modified' := true;
      }
    }

    method AddFirstFields(env: Env) returns (modified: bool)
      modifies this
      ensures entries == Fill(old(entries), FirstFields(env))
      ensures modified == !HasAll(old(entries), FirstFields(env))
    {
      hide Fill, HasAll, DistinctFields;
      ghost var start, table := entries, FirstFields(env);
      NothingFilled(start, table);
      modified := AddIfMissing(EnableLazyLoading, Flag(env.lazyLoading), false, start, table, 0);
      modified := AddIfMissing(MaxFileSize, Number(env.maxFileSize), modified, start, table, 1);
      modified := AddIfMissing(MaxClientLoad, Number(env.maxClientLoad), modified, start, table, 2);
      assert table[..|table|] == table;
    }

    /** The block that splits the legacy extension list. */
    method SplitLegacyList() returns (modified: bool)
      modifies this
      ensures entries == SplitExtensions(old(entries))
      ensures modified == (PreviewTextExtensions !in old(entries))
    {
      modified := false;
      if PreviewTextExtensions !in entries {
        ghost var c := entries;
        var isList := HasLegacyList(entries);
        var legacy := if isList then entries[AutoInlineExtensions].items else [];
        var preview := if isList then legacy else PreviewDefaults();
        entries := entries[PreviewTextExtensions := Strings(preview)];
        if UploadInlineExtensions !in entries {
          NothingListed(InlineDefaults());
          assert [] + InlineDefaults() == InlineDefaults();
          entries := entries[UploadInlineExtensions :=
            Strings(if isList then legacy + Missing(legacy, InlineDefaults()) else InlineDefaults())];
        }
        DroppedLast(c, Strings(preview), entries[UploadInlineExtensions]);
        entries := entries - {AutoInlineExtensions};
        entries := entries - {AutoInlineSeeded};
        modified := true;
      }
    }

    method AddLaterFields(env: Env) returns (modified: bool)
      modifies this
      ensures entries == Fill(old(entries), LaterFields(env))
      ensures modified == !HasAll(old(entries), LaterFields(env))
    {
      hide Fill, HasAll, DistinctFields, LaterFields;
      ghost var start, table := entries, LaterFields(env);
      LaterRows(env);
      NothingFilled(start, table);
      modified := AddIfMissing(PasswordMinLength, Number(8), false, start, table, 0);
      modified := AddIfMissing(PasswordMinUppercase, Number(1), modified, start, table, 1);
      modified := AddIfMissing(PasswordMinLowercase, Number(1), modified, start, table, 2);
      modified := AddIfMissing(PasswordMinDigits, Number(1), modified, start, table, 3);
      modified := AddIfMissing(PasswordMinSpecial, Number(0), modified, start, table, 4);
      modified := AddIfMissing(McpEnabled, Flag(true), modified, start, table, 5);
      modified := AddIfMissing(McpDisableWrites, Flag(false), modified, start, table, 6);
      modified := AddIfMissing(McpTextExtensions, Strings([]), modified, start, table, 7);
      modified := AddIfMissing(McpGlobalMaxReadBytes, Number(10_485_760), modified, start, table, 8);
      modified := AddIfMissing(McpSummaryMaxKeys, Number(50_000), modified, start, table, 9);
      modified := AddIfMissing(McpSummaryPrefixScanPages, Number(20), modified, start, table, 10);
      modified := AddIfMissing(McpListPageSize, Number(1000), modified, start, table, 11);
      modified := AddIfMissing(McpListMaxPageSize, Number(10_000), modified, start, table, 12);
      modified := AddIfMissing(PresignedUrlDefaultTtl, Number(env.defaultTtl), modified, start, table, 13);
      modified := AddIfMissing(PresignedUrlMaxTtl, Number(env.maxTtl), modified, start, table, 14);
      assert table[..|table|] == table;
    }

    /** `_migrate_config` */
    method Migrate(env: Env) returns (modified: bool)
      modifies this
      ensures entries == Migrated(old(entries), env)
      ensures modified <==> entries != old(entries)
    {
      hide Fill, HasAll, SplitExtensions, FirstFields, LaterFields;
      ghost var before := entries;
      var first := AddFirstFields(env);
      var split := SplitLegacyList();
      var later := AddLaterFields(env);
      modified := first || split || later;
      FixedPoints(before, env);
      FieldsStayApart(before, env);
    }
  }

  /** Whether a later field is there does not depend on the steps before it. */
  lemma FieldsStayApart(c: Config, env: Env)
    ensures PreviewTextExtensions in Fill(c, FirstFields(env)) <==> PreviewTextExtensions in c
    ensures HasAll(SplitExtensions(Fill(c, FirstFields(env))), LaterFields(env)) <==> HasAll(c, LaterFields(env))
  {
    hide Fill, SplitExtensions;
    FillKeeps(c, FirstFields(env));
    FillAdds(c, FirstFields(env));
    SplitKeeps(Fill(c, FirstFields(env)));
    forall i | 0 <= i < |LaterFields(env)|
      ensures LaterFields(env)[i].0 in SplitExtensions(Fill(c, FirstFields(env))) <==> LaterFields(env)[i].0 in c
    {
    }
  }

  lemma LaterRows(env: Env)
    ensures |LaterFields(env)| == 15
    ensures LaterFields(env)[0] == (PasswordMinLength, Number(8))
    ensures LaterFields(env)[1] == (PasswordMinUppercase, Number(1))
    ensures LaterFields(env)[2] == (PasswordMinLowercase, Number(1))
    ensures LaterFields(env)[3] == (PasswordMinDigits, Number(1))
    ensures LaterFields(env)[4] == (PasswordMinSpecial, Number(0))
    ensures LaterFields(env)[5] == (McpEnabled, Flag(true))
    ensures LaterFields(env)[6] == (McpDisableWrites, Flag(false))
    ensures LaterFields(env)[7] == (McpTextExtensions, Strings([]))
    ensures LaterFields(env)[8] == (McpGlobalMaxReadBytes, Number(10_485_760))
    ensures LaterFields(env)[9] == (McpSummaryMaxKeys, Number(50_000))
    ensures LaterFields(env)[10] == (McpSummaryPrefixScanPages, Number(20))
    ensures LaterFields(env)[11] == (McpListPageSize, Number(1000))
    ensures LaterFields(env)[12] == (McpListMaxPageSize, Number(10_000))
    ensures LaterFields(env)[13] == (PresignedUrlDefaultTtl, Number(env.defaultTtl))
    ensures LaterFields(env)[14] == (PresignedUrlMaxTtl, Number(env.maxTtl))
  {
  }

  lemma NothingFilled(c: Config, table: Table)
    ensures Fill(c, table[..0]) == c && HasAll(c, table[..0])
    ensures forall env :: DistinctFields(FirstFields(env)) && DistinctFields(LaterFields(env))
  {
  }

  /** The legacy fields are dropped last, which is the same as dropping them first. */
  lemma DroppedLast(c: Config, preview: Value, upload: Value)
    ensures var both := c[PreviewTextExtensions := preview][UploadInlineExtensions := upload];
            var kept := c - {AutoInlineExtensions, AutoInlineSeeded};
            && both - {AutoInlineExtensions} - {AutoInlineSeeded}
               == kept[PreviewTextExtensions := preview][UploadInlineExtensions := upload]
            && (UploadInlineExtensions in c && c[UploadInlineExtensions] == upload ==>
                  c[PreviewTextExtensions := preview] == both)
  {
  }

  lemma {:induction false} NothingListed(defaults: seq<string>)
    ensures Missing([], defaults) == defaults
  {
    if defaults != [] { NothingListed(defaults[1..]); }
  }

  // ------------------------------------------------- what it means

  /** The split keeps every field but the two legacy ones and never drops the marker. */
  lemma SplitKeeps(c: Config)
    ensures PreviewTextExtensions in SplitExtensions(c)
    ensures forall f :: f in c && f != AutoInlineExtensions && f != AutoInlineSeeded ==>
              f in SplitExtensions(c) && SplitExtensions(c)[f] == c[f]
    ensures forall f :: f in SplitExtensions(c) ==> f in c || f == PreviewTextExtensions || f == UploadInlineExtensions
  {
  }

  lemma MigratedIsMigrated(c: Config, env: Env, env': Env)
    ensures IsMigrated(Migrated(c, env), env')
  {
    hide Fill, SplitExtensions;
    var first := Fill(c, FirstFields(env));
    FillAdds(c, FirstFields(env));
    SplitKeeps(first);
    FillAdds(SplitExtensions(first), LaterFields(env));
    FillKeeps(SplitExtensions(first), LaterFields(env));
    var r := Migrated(c, env);
    forall i | 0 <= i < |FirstFields(env')| ensures FirstFields(env')[i].0 in r {
      assert FirstFields(env')[i].0 == FirstFields(env)[i].0;
    }
    forall i | 0 <= i < |LaterFields(env')| ensures LaterFields(env')[i].0 in r {
      assert LaterFields(env')[i].0 == LaterFields(env)[i].0;
    }
  }

  /** A configuration is a fixed point exactly when nothing is missing. */
  lemma FixedPoints(c: Config, env: Env)
    ensures Migrated(c, env) == c <==> IsMigrated(c, env)
  {
    MigratedIsMigrated(c, env, env);
    if IsMigrated(c, env) {
      FillNothing(c, FirstFields(env));
      FillNothing(c, LaterFields(env));
    }
  }

  /** Migrating twice, even with a different environment, is migrating once. */
  lemma Idempotent(c: Config, env: Env, env': Env)
    ensures Migrated(Migrated(c, env), env') == Migrated(c, env)
  {
    hide Migrated, IsMigrated;
    MigratedIsMigrated(c, env, env');
    FixedPoints(Migrated(c, env), env');
  }

  /** No setting is lost or changed, except for the two legacy fields. */
  lemma SettingsSurvive(c: Config, env: Env, f: Field)
    requires f in c && f != AutoInlineExtensions && f != AutoInlineSeeded
    ensures f in Migrated(c, env) && Migrated(c, env)[f] == c[f]
  {
    hide Fill, SplitExtensions;
    FillKeeps(c, FirstFields(env));
    SplitKeeps(Fill(c, FirstFields(env)));
    FillKeeps(SplitExtensions(Fill(c, FirstFields(env))), LaterFields(env));
  }

  lemma {:induction false} MissingMembers(legacy: seq<string>, defaults: seq<string>, e: string)
    ensures e in Missing(legacy, defaults) <==> e in defaults && e !in legacy
  {
    if defaults != [] {
      MissingMembers(legacy, defaults[1..], e);
      assert defaults == [defaults[0]] + defaults[1..];
    }
  }

  /** Splitting the legacy list keeps every extension inline and adds the defaults. */
  lemma LegacyExtensionsSurvive(c: Config, env: Env, e: string)
    requires AutoInlineExtensions in c && c[AutoInlineExtensions].Strings?
    requires PreviewTextExtensions !in c && UploadInlineExtensions !in c
    ensures PreviewTextExtensions in Migrated(c, env) && UploadInlineExtensions in Migrated(c, env)
    ensures Migrated(c, env)[PreviewTextExtensions] == c[AutoInlineExtensions]
    ensures Migrated(c, env)[UploadInlineExtensions].Strings?
    ensures e in Migrated(c, env)[UploadInlineExtensions].items
            <==> e in c[AutoInlineExtensions].items || e in ["pdf", "png", "jpg", "jpeg", "gif", "webp"]
  {
    hide Fill;
    var first := Fill(c, FirstFields(env));
    FillKeeps(c, FirstFields(env));
    FillAdds(c, FirstFields(env));
    MissingMembers(c[AutoInlineExtensions].items, InlineDefaults(), e);
    FillKeeps(SplitExtensions(first), LaterFields(env));
  }

  /** The tables do not know the extension lists. */
  lemma TablesLeaveLists(c: Config, env: Env, f: Field)
    requires f in {AutoInlineExtensions, AutoInlineSeeded, PreviewTextExtensions, UploadInlineExtensions}
    ensures f in Fill(c, FirstFields(env)) <==> f in c
    ensures f in Fill(c, LaterFields(env)) <==> f in c
  {
    FillKeeps(c, FirstFields(env));
    FillAdds(c, FirstFields(env));
    FillKeeps(c, LaterFields(env));
    FillAdds(c, LaterFields(env));
    hide Fill;
  }

  lemma FreshSplit(c: Config)
    requires !HasLegacyList(c) && PreviewTextExtensions !in c
    ensures var m := SplitExtensions(c);
            && PreviewTextExtensions in m && m[PreviewTextExtensions] == Strings(PreviewDefaults())
            && UploadInlineExtensions in m
            && (UploadInlineExtensions !in c ==> m[UploadInlineExtensions] == Strings(InlineDefaults()))
            && AutoInlineExtensions !in m && AutoInlineSeeded !in m
  {
    NothingListed(InlineDefaults());
    hide Missing, PreviewDefaults, InlineDefaults;
    assert [] + InlineDefaults() == InlineDefaults();
  }

  /** Without a legacy list both lists start from the built-in ones, and the legacy fields are gone. */
  lemma FreshListsAreTheDefaults(c: Config, env: Env)
    requires !(AutoInlineExtensions in c && c[AutoInlineExtensions].Strings?) && PreviewTextExtensions !in c
    ensures var m := Migrated(c, env);
            && PreviewTextExtensions in m && UploadInlineExtensions in m
            && m[PreviewTextExtensions] == Strings(["txt", "md", "json", "yaml", "yml", "log", "csv"])
            && (UploadInlineExtensions !in c ==>
                  m[UploadInlineExtensions] == Strings(["pdf", "png", "jpg", "jpeg", "gif", "webp"]))
            && AutoInlineExtensions !in m && AutoInlineSeeded !in m
  {
    hide Fill, FirstFields, LaterFields, SplitExtensions;
    var first := Fill(c, FirstFields(env));
    FillKeeps(c, FirstFields(env));
    TablesLeaveLists(c, env, AutoInlineExtensions);
    TablesLeaveLists(c, env, PreviewTextExtensions);
    TablesLeaveLists(c, env, UploadInlineExtensions);
    FreshSplit(first);
    var split := SplitExtensions(first);
    FillKeeps(split, LaterFields(env));
    TablesLeaveLists(split, env, AutoInlineExtensions);
    TablesLeaveLists(split, env, AutoInlineSeeded);
  }

  /**
   * The split is not redone: the upload list is there after the migration
   * exactly when it was there before or the split's marker was not.
   */
  lemma UploadListCanStayMissing(c: Config, env: Env)
    ensures UploadInlineExtensions in Migrated(c, env)
       <==> UploadInlineExtensions in c || PreviewTextExtensions !in c
  {
    hide Fill;
    var split := SplitExtensions(Fill(c, FirstFields(env)));
    FillKeeps(c, FirstFields(env));
    FillAdds(c, FirstFields(env));
    FillKeeps(split, LaterFields(env));
    FillAdds(split, LaterFields(env));
  }

  /** A configuration with an empty preview list and no upload list never gets one. */
  lemma PreviewListAloneStaysAlone(env: Env)
    ensures UploadInlineExtensions !in Migrated(map[PreviewTextExtensions := Strings([])], env)
  {
    UploadListCanStayMissing(map[PreviewTextExtensions := Strings([])], env);
  }

  /** `_get_default_config` */
  function DefaultConfig(env: Env): Config {
    map[Roles := Json("Default"),
        EnableLazyLoading := Flag(env.lazyLoading),
        MaxFileSize := Number(env.maxFileSize),
        MaxClientLoad := Number(env.maxClientLoad),
        DisableDeletion := Flag(false),
        PreviewTextExtensions := Strings(PreviewDefaults()),
        UploadInlineExtensions := Strings(InlineDefaults()),
        PasswordMinLength := Number(8),
        PasswordMinUppercase := Number(1),
        PasswordMinLowercase := Number(1),
        PasswordMinDigits := Number(1),
        PasswordMinSpecial := Number(0),
        McpEnabled := Flag(true),
        McpDisableWrites := Flag(false),
        McpTextExtensions := Strings([]),
        McpGlobalMaxReadBytes := Number(10_485_760),
        McpSummaryMaxKeys := Number(50_000),
        McpSummaryPrefixScanPages := Number(20),
        McpListPageSize := Number(1000),
        McpListMaxPageSize := Number(10_000),
        PresignedUrlDefaultTtl := Number(env.defaultTtl),
        PresignedUrlMaxTtl := Number(env.maxTtl)]
  }

  /** The built-in configuration needs no migration. */
  lemma DefaultConfigIsMigrated(env: Env, env': Env)
    ensures IsMigrated(DefaultConfig(env), env') && DefaultConfig(env) != map[]
  {
    assert Roles in DefaultConfig(env);
  }
}
