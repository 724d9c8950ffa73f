/** The catalog records of internal/catalog/types.go that closure computation uses. */
module Catalog {
  import opened Identity
  import opened Sorting
  import opened Wrappers

  const MAX_TAPS: nat := 16
  const MAX_CLOSURE_NODES: nat := 256

  /** A dependency spelling after parsing: a bare name, a fully qualified identity whose
      text is the spelling itself, or text that ParseFormulaID refuses. */
  datatype Spelling = Bare(name: Name) | Qualified(id: FormulaId) | Malformed(text: string)

  datatype Requirement = Requirement(
    raw: Spelling,
    id: FormulaId,
    minimumPkgVersion: string,
    minimumRevision: int,
    minimumBottleRebuild: int,
    declaredDirectly: bool)

  datatype Node = Node(
    id: FormulaId,
    tap: TapId,
    name: string,
    fullName: string,
    formulaVersion: string,
    formulaRevision: int,
    pkgVersion: string,
    versionScheme: int,
    bottleRebuild: int,
    license: string,
    kegOnly: bool,
    dependencies: seq<Requirement>)

  /** Nodes are sorted by identity. */
  predicate NodeLe(a: Node, b: Node) { IdLe(a.id, b.id) }

  lemma NodeLeOrder()
    ensures TotalPreorder(NodeLe)
  {
    KeyOrder((n: Node) => Text(n.id), NodeLe);
  }

  datatype RequestedMapping = RequestedMapping(requested: FormulaId, resolved: FormulaId)

  /** `mappings` and `taps` are None where the Go slice is nil and a default is filled in. */
  datatype ClosureResult = ClosureResult(
    requested: seq<FormulaId>,
    mappings: Option<seq<RequestedMapping>>,
    taps: Option<seq<TapId>>,
    nodes: seq<Node>,
    installOrder: seq<FormulaId>)

  datatype Platform = Amd64 | Arm64

  function BottleTag(platform: Platform): string {
    match platform
    case Arm64 => "arm64_linux"
    case Amd64 => "x86_64_linux"
  }

  function PkgVersion(version: string, revision: int): string {
    if revision > 0 then version + "_" + Decimal(revision) else version
  }

  function Decimal(n: nat): string {
    if n < 10 then [Digit(n)] else Decimal(n / 10) + [Digit(n % 10)]
  }

  function Digit(d: nat): char
    requires d < 10
  {
    "0123456789"[d]
  }

  /** The number a text of decimal digits stands for. */
  ghost function Value(text: string): int {
    if text == "" then 0 else 10 * Value(text[..|text| - 1]) + (text[|text| - 1] as int - '0' as int)
  }

  lemma {:induction false} DecimalReads(n: nat)
    ensures Value(Decimal(n)) == n && Decimal(n) != "" && (n > 0 ==> Decimal(n)[0] != '0')
    ensures forall k | 0 <= k < |Decimal(n)| :: '0' <= Decimal(n)[k] <= '9'
  {
    if n < 10 {
      assert Decimal(n)[..0] == "";
    } else {
      DecimalReads(n / 10);
      assert Decimal(n)[..|Decimal(n)| - 1] == Decimal(n / 10);
    }
  }

  /** A package version is the version, followed for a positive revision by its number. */
  lemma PkgVersionMeaning(version: string, revision: int)
    ensures revision <= 0 ==> PkgVersion(version, revision) == version
    ensures revision > 0 ==>
      && |version| < |PkgVersion(version, revision)| && version + "_" <= PkgVersion(version, revision)
      && Value(PkgVersion(version, revision)[|version| + 1..]) == revision
  {
    if revision > 0 {
      DecimalReads(revision);
      assert (version + "_" + Decimal(revision))[|version| + 1..] == Decimal(revision);
    }
  }
}
