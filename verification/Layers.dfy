/** tools/archlint/main.go: a per-import rule whose purpose is a property of every import chain. */
module Layers {
  import opened Bytes
  import opened Sorting

  function Ascii(s: string): (t: text)
    ensures |t| == |s|
  {
    seq(|s|, i requires 0 <= i < |s| => s[i] as int % 256)
  }

  const SLASH: byte := 47
  const DOT: byte := 46

  /** External is every path outside the module: the standard library and third parties. */
  datatype Layer = External | Tool | Cmd | Domain | App | Infra | Cli | Unclassified

  datatype ListedPackage = ListedPackage(importPath: text, imports: seq<text>)

  /** The rule an import breaks, in the alphabetical order of the messages. */
  datatype Reason =
    | Allowed
    | AppImportsEffects | AppImportsThirdParty | AppOnlyAppAndDomain
    | CliImportsCmd | CliImportsThirdParty | CliImportsEffects
    | CmdOnlyCli | AgentHostPackage | OutsideLayers
    | DomainImportsContext | DomainImportsEffects | DomainImportsThirdParty | DomainOnlyDomain
    | InfraOnlyInfraAndDomain | ImportsTools | UnplacedPackage | UnclassifiedOwner

  function Rank(r: Reason): nat {
    match r
    case Allowed => 0 case AppImportsEffects => 1 case AppImportsThirdParty => 2 case AppOnlyAppAndDomain => 3
    case CliImportsCmd => 4 case CliImportsThirdParty => 5 case CliImportsEffects => 6
    case CmdOnlyCli => 7 case AgentHostPackage => 8 case OutsideLayers => 9
    case DomainImportsContext => 10 case DomainImportsEffects => 11 case DomainImportsThirdParty => 12 case DomainOnlyDomain => 13
    case InfraOnlyInfraAndDomain => 14 case ImportsTools => 15 case UnplacedPackage => 16 case UnclassifiedOwner => 17
  }

  datatype Violation = Violation(from: text, to: text, reason: Reason)

  /** The path of a directory or of something below it. */
  predicate InTree(path: text, root: text) {
    path == root || HasPrefix(path, root + [SLASH])
  }

  function PackageLayer(mod: text, path: text): Layer {
    if InTree(path, mod + Ascii("/tools")) then Tool
    else if InTree(path, mod + Ascii("/cmd")) then Cmd
    else if InTree(path, mod + Ascii("/internal/domain")) then Domain
    else if InTree(path, mod + Ascii("/internal/app")) then App
    else if InTree(path, mod + Ascii("/internal/infra")) then Infra
    else if InTree(path, mod + Ascii("/internal/cli")) then Cli
    else if InTree(path, mod) then Unclassified
    else External
  }

  // ----- the layers by path

  /** A directory and what is below it, spelled out. */
  lemma InTreeExactly(path: text, root: text)
    ensures InTree(path, root) <==> path == root || exists below: text :: path == root + [47] + below
  {
    if HasPrefix(path, root + [SLASH]) {
      Halves(path, |root| + 1);
    }
    forall below: text | path == root + [47] + below ensures InTree(path, root) {
      assert path[..|root| + 1] == root + [47];
    }
  }

  lemma InTreeByte(path: text, mod: text, dir: text, k: nat)
    requires InTree(path, mod + dir) && k < |dir|
    ensures |mod| + k < |path| && path[|mod| + k] == dir[k]
  {
    if path != mod + dir {
      assert path[|mod| + k] == path[..|mod + dir| + 1][|mod| + k];
    }
  }

  /** The directory dir of the module, and what is below it. */
  predicate Under(mod: text, dir: string, path: text) {
    InTree(path, mod + Ascii(dir))
  }

  /** Directories that differ at one byte have no path in common. */
  lemma Apart(mod: text, path: text, a: string, b: string, k: nat)
    requires k < |a| && k < |b| && Ascii(a)[k] != Ascii(b)[k]
    ensures !(Under(mod, a, path) && Under(mod, b, path))
  {
    if Under(mod, a, path) && Under(mod, b, path) {
      InTreeByte(path, mod, Ascii(a), k);
      InTreeByte(path, mod, Ascii(b), k);
    }
  }

  lemma InTreeAbove(mod: text, path: text, dir: string)
    requires dir != [] && dir[0] == '/' && Under(mod, dir, path)
    ensures InTree(path, mod)
  {
    var root := mod + Ascii(dir);
    assert root[..|mod| + 1] == mod + [SLASH];
    if path != root {
      assert path[..|mod| + 1] == path[..|root| + 1][..|mod| + 1];
    }
  }

  lemma InternalDirectoriesApart(mod: text, path: text)
    ensures Under(mod, "/internal/domain", path) ==>
              !Under(mod, "/internal/app", path) && !Under(mod, "/internal/infra", path) && !Under(mod, "/internal/cli", path)
    ensures Under(mod, "/internal/app", path) ==> !Under(mod, "/internal/infra", path) && !Under(mod, "/internal/cli", path)
    ensures !(Under(mod, "/internal/infra", path) && Under(mod, "/internal/cli", path))
  {
    Apart(mod, path, "/internal/domain", "/internal/app", 10);
    Apart(mod, path, "/internal/domain", "/internal/infra", 10);
    Apart(mod, path, "/internal/domain", "/internal/cli", 10);
    Apart(mod, path, "/internal/app", "/internal/infra", 10);
    Apart(mod, path, "/internal/app", "/internal/cli", 10);
    Apart(mod, path, "/internal/infra", "/internal/cli", 10);
  }

  lemma TopDirectoriesApart(mod: text, path: text)
    ensures !(Under(mod, "/tools", path) && Under(mod, "/cmd", path))
    ensures Under(mod, "/tools", path) || Under(mod, "/cmd", path) ==>
              && !Under(mod, "/internal/domain", path) && !Under(mod, "/internal/app", path)
              && !Under(mod, "/internal/infra", path) && !Under(mod, "/internal/cli", path)
  {
    Apart(mod, path, "/tools", "/cmd", 1);
    Apart(mod, path, "/tools", "/internal/domain", 1);
    Apart(mod, path, "/tools", "/internal/app", 1);
    Apart(mod, path, "/tools", "/internal/infra", 1);
    Apart(mod, path, "/tools", "/internal/cli", 1);
    Apart(mod, path, "/cmd", "/internal/domain", 1);
    Apart(mod, path, "/cmd", "/internal/app", 1);
    Apart(mod, path, "/cmd", "/internal/infra", 1);
    Apart(mod, path, "/cmd", "/internal/cli", 1);
  }

  lemma DirectoriesInModule(mod: text, path: text)
    ensures Under(mod, "/tools", path) || Under(mod, "/cmd", path) || Under(mod, "/internal/domain", path)
            || Under(mod, "/internal/app", path) || Under(mod, "/internal/infra", path) || Under(mod, "/internal/cli", path)
            ==> InTree(path, mod)
  {
    if Under(mod, "/tools", path) { InTreeAbove(mod, path, "/tools"); }
    if Under(mod, "/cmd", path) { InTreeAbove(mod, path, "/cmd"); }
    if Under(mod, "/internal/domain", path) { InTreeAbove(mod, path, "/internal/domain"); }
    if Under(mod, "/internal/app", path) { InTreeAbove(mod, path, "/internal/app"); }
    if Under(mod, "/internal/infra", path) { InTreeAbove(mod, path, "/internal/infra"); }
    if Under(mod, "/internal/cli", path) { InTreeAbove(mod, path, "/internal/cli"); }
  }

  /** Six directories without a common path are the six layers; every other path of the module is unplaced. */
  lemma LayersByPath(mod: text, path: text)
    ensures PackageLayer(mod, path) == Tool <==> Under(mod, "/tools", path)
    ensures PackageLayer(mod, path) == Cmd <==> Under(mod, "/cmd", path)
    ensures PackageLayer(mod, path) == Domain <==> Under(mod, "/internal/domain", path)
    ensures PackageLayer(mod, path) == App <==> Under(mod, "/internal/app", path)
    ensures PackageLayer(mod, path) == Infra <==> Under(mod, "/internal/infra", path)
    ensures PackageLayer(mod, path) == Cli <==> Under(mod, "/internal/cli", path)
    ensures PackageLayer(mod, path) == External <==> !InTree(path, mod)
  {
    TopDirectoriesApart(mod, path);
    InternalDirectoriesApart(mod, path);
    DirectoriesInModule(mod, path);
  }

  const RESERVED_SEGMENTS: seq<text> :=
    [Ascii("agenthost"), Ascii("claudehook"), Ascii("codexhook"), Ascii("hostadapter"), Ascii("hostintegration")]

  predicate ForbiddenPurpose(mod: text, path: text) {
    var prefix := mod + [SLASH];
    HasPrefix(path, prefix)
    && exists s :: s in Split(path[|prefix|..], SLASH) && s in RESERVED_SEGMENTS
  }

  const EFFECTFUL: seq<text> :=
    [Ascii("C"), Ascii("database/sql"), Ascii("net"), Ascii("net/http"), Ascii("os"), Ascii("os/exec"),
     Ascii("plugin"), Ascii("runtime/cgo"), Ascii("syscall")]

  const COMMAND_IMPORTS: seq<text> := [Ascii("context"), Ascii("os"), Ascii("os/signal"), Ascii("syscall")]

  predicate Effectful(path: text) {
    exists root :: root in EFFECTFUL && InTree(path, root)
  }

  predicate Logging(path: text) {
    InTree(path, Ascii("log"))
  }

  predicate ThirdParty(path: text) {
    DOT in path[..IndexOf(path, SLASH)]
  }

  /** The rule between two layers of the module. */
  function ForbiddenReason(from: Layer, to: Layer): Reason {
    if to == Tool then ImportsTools
    else if to == Unclassified then OutsideLayers
    else if from == Unclassified then UnclassifiedOwner
    else if from == Cmd then if to != Cli then CmdOnlyCli else Allowed
    else if from == Cli then if to == Cmd then CliImportsCmd else Allowed
    else if from == to then Allowed
    else match from
      case Domain => DomainOnlyDomain
      case App => if to != Domain then AppOnlyAppAndDomain else Allowed
      case Infra => if to != Domain then InfraOnlyInfraAndDomain else Allowed
      case _ => Allowed
  }

  function ForbiddenImportReason(mod: text, from: Layer, imported: text, allowedCLI: seq<text>): Reason {
    var to := PackageLayer(mod, imported);
    if to != External then ForbiddenReason(from, to)
    else match from
      case Cmd => if imported !in COMMAND_IMPORTS then CmdOnlyCli else Allowed
      case Domain =>
        if imported == Ascii("context") then DomainImportsContext
        else if Effectful(imported) || Logging(imported) then DomainImportsEffects
        else if ThirdParty(imported) then DomainImportsThirdParty
        else Allowed
      case App =>
        if Effectful(imported) || Logging(imported) then AppImportsEffects
        else if ThirdParty(imported) then AppImportsThirdParty
        else Allowed
      case Cli =>
        if Effectful(imported) then CliImportsEffects
        else if ThirdParty(imported) && imported !in allowedCLI then CliImportsThirdParty
        else Allowed
      case _ => Allowed
  }

  // ----- one package

  function OneImport(mod: text, layer: Layer, path: text, imported: text, allowedCLI: seq<text>): seq<Violation> {
    var reason := ForbiddenImportReason(mod, layer, imported, allowedCLI);
    if reason != Allowed then [Violation(path, imported, reason)] else []
  }

  function ImportViolations(mod: text, layer: Layer, path: text, imports: seq<text>, allowedCLI: seq<text>): seq<Violation> {
    if imports == [] then []
    else OneImport(mod, layer, path, imports[0], allowedCLI) + ImportViolations(mod, layer, path, imports[1..], allowedCLI)
  }

  lemma ImportStep(mod: text, layer: Layer, path: text, imports: seq<text>, allowedCLI: seq<text>, i: nat, found: seq<Violation>)
    requires i < |imports|
    ensures found + ImportViolations(mod, layer, path, imports[i..], allowedCLI)
         == (found + OneImport(mod, layer, path, imports[i], allowedCLI))
            + ImportViolations(mod, layer, path, imports[i + 1..], allowedCLI)
  {
    assert imports[i..][1..] == imports[i + 1..];
    Regroup(found, OneImport(mod, layer, path, imports[i], allowedCLI),
            ImportViolations(mod, layer, path, imports[i + 1..], allowedCLI));
  }

  /** What is wrong with the place of the package itself. */
  function PlaceViolations(mod: text, path: text): seq<Violation> {
    (if ForbiddenPurpose(mod, path)
     then [Violation(path, path, AgentHostPackage)] else [])
    + (if PackageLayer(mod, path) == Unclassified
       then [Violation(path, path, UnplacedPackage)] else [])
  }

  function PackageViolations(mod: text, item: ListedPackage, allowedCLI: seq<text>): seq<Violation> {
    var layer := PackageLayer(mod, item.importPath);
    if layer == External || layer == Tool then []
    else PlaceViolations(mod, item.importPath)
         + (if layer == Unclassified then [] else ImportViolations(mod, layer, item.importPath, item.imports, allowedCLI))
  }

  function AllViolations(mod: text, packages: seq<ListedPackage>, allowedCLI: seq<text>): seq<Violation> {
    if packages == [] then []
    else PackageViolations(mod, packages[0], allowedCLI) + AllViolations(mod, packages[1..], allowedCLI)
  }

  predicate ByFromToReason(a: Violation, b: Violation) {
    Less(a.from, b.from)
    || (a.from == b.from && (Less(a.to, b.to) || (a.to == b.to && Rank(a.reason) < Rank(b.reason))))
  }

  lemma ByFromToReasonIsStrictWeak()
    ensures StrictWeak(ByFromToReason)
  {
    forall a: Violation, b: Violation ensures ByFromToReason(a, b) ==> !ByFromToReason(b, a) {
      LessTotal(a.from, b.from);
      LessTotal(a.to, b.to);
    }
    TextLessIsStrictWeak();
    forall a: Violation, b: Violation, c: Violation | ByFromToReason(a, c)
      ensures ByFromToReason(a, b) || ByFromToReason(b, c)
    {
      LessTotal(a.from, b.from);
      LessTotal(b.from, c.from);
      LessTotal(a.to, b.to);
      LessTotal(b.to, c.to);
    }
  }

  // ----- what an empty report means for one import

  lemma {:induction false} NoImportViolation(mod: text, layer: Layer, path: text, imports: seq<text>, allowedCLI: seq<text>)
    ensures ImportViolations(mod, layer, path, imports, allowedCLI) == [] <==>
              forall i :: 0 <= i < |imports| ==> ForbiddenImportReason(mod, layer, imports[i], allowedCLI) == Allowed
  {
    if imports != [] {
      NoImportViolation(mod, layer, path, imports[1..], allowedCLI);
      assert forall i :: 1 <= i < |imports| ==> imports[i] == imports[1..][i - 1];
    }
  }

  predicate PackageClean(mod: text, item: ListedPackage, allowedCLI: seq<text>) {
    var layer := PackageLayer(mod, item.importPath);
    layer == External || layer == Tool
    || (layer != Unclassified && !ForbiddenPurpose(mod, item.importPath)
        && forall i :: 0 <= i < |item.imports| ==> ForbiddenImportReason(mod, layer, item.imports[i], allowedCLI) == Allowed)
  }

  lemma CleanExactly(mod: text, item: ListedPackage, allowedCLI: seq<text>)
    ensures PackageViolations(mod, item, allowedCLI) == [] <==> PackageClean(mod, item, allowedCLI)
  {
    NoImportViolation(mod, PackageLayer(mod, item.importPath), item.importPath, item.imports, allowedCLI);
  }

  // ----- the rules by name

  /** strings.Split finds exactly the pieces between separators. */
  ghost predicate PieceAt(whole: text, left: text, piece: text, right: text, sep: byte) {
    whole == left + piece + right && sep !in piece
    && (left == [] || left[|left| - 1] == sep) && (right == [] || right[0] == sep)
  }

  lemma PieceBehind(whole: text, i: nat, left: text, piece: text, right: text, sep: byte)
    requires i < |whole| && whole[i] == sep && PieceAt(whole[i + 1..], left, piece, right, sep)
    ensures PieceAt(whole, whole[..i + 1] + left, piece, right, sep)
  {
    var longer := whole[..i + 1] + left;
    Halves(whole, i + 1);
    Regroup(whole[..i + 1], left, piece);
    Regroup(whole[..i + 1], left + piece, right);
    assert longer[|longer| - 1] == sep;
  }

  lemma PieceInFront(whole: text, left: text, piece: text, right: text, sep: byte)
    requires PieceAt(whole, left, piece, right, sep)
    ensures left == [] ==> IndexOf(whole, sep) == |piece| && whole[..|piece|] == piece
    ensures left != [] ==>
              var i := IndexOf(whole, sep);
              i < |left| && PieceAt(whole[i + 1..], left[i + 1..], piece, right, sep)
  {
    var i := IndexOf(whole, sep);
    if left == [] {
      assert whole[..|piece|] == piece;
      assert forall k :: 0 <= k < |piece| ==> whole[k] == piece[k];
      assert right != [] ==> whole[|piece|] == right[0];
    } else {
      assert whole[|left| - 1] == left[|left| - 1];
      assert whole[i + 1..] == left[i + 1..] + piece + right;
    }
  }

  lemma {:induction false} PieceFound(whole: text, piece: text, sep: byte) returns (left: text, right: text)
    requires piece in Split(whole, sep)
    ensures PieceAt(whole, left, piece, right, sep)
    decreases |whole|
  {
    var i := IndexOf(whole, sep);
    if i == |whole| || piece == whole[..i] {
      left, right := [], whole[i..];
      assert piece == whole[..i] && [] + piece + whole[i..] == whole;
    } else {
      left, right := PieceFound(whole[i + 1..], piece, sep);
      PieceBehind(whole, i, left, piece, right, sep);
      left := whole[..i + 1] + left;
    }
  }

  lemma {:induction false} PieceIsFound(whole: text, left: text, piece: text, right: text, sep: byte)
    requires PieceAt(whole, left, piece, right, sep)
    ensures piece in Split(whole, sep)
    decreases |whole|
  {
    var i := IndexOf(whole, sep);
    PieceInFront(whole, left, piece, right, sep);
    if left == [] {
      assert piece == whole[..i] && Split(whole, sep)[0] == whole[..i];
    } else {
      PieceIsFound(whole[i + 1..], left[i + 1..], piece, right, sep);
    }
  }

  ghost predicate HostName(segment: text) {
    segment == Ascii("agenthost") || segment == Ascii("claudehook") || segment == Ascii("codexhook")
    || segment == Ascii("hostadapter") || segment == Ascii("hostintegration")
  }

  /** Some segment of the path below the module names a coding-agent host. */
  ghost predicate HostSegment(mod: text, path: text) {
    exists below: text, left: text, segment: text, right: text {:trigger PieceAt(below, left, segment, right, 47), mod + [47] + below} ::
      path == mod + [47] + below && PieceAt(below, left, segment, right, 47) && HostName(segment)
  }

  lemma HostNames(segment: text)
    ensures segment in RESERVED_SEGMENTS <==> HostName(segment)
  {
    assert RESERVED_SEGMENTS[0] == Ascii("agenthost") && RESERVED_SEGMENTS[1] == Ascii("claudehook");
    assert RESERVED_SEGMENTS[2] == Ascii("codexhook") && RESERVED_SEGMENTS[3] == Ascii("hostadapter");
    assert RESERVED_SEGMENTS[4] == Ascii("hostintegration");
  }

  lemma HostSegmentFound(mod: text, path: text)
    requires ForbiddenPurpose(mod, path)
    ensures HostSegment(mod, path)
  {
    var below := path[|mod| + 1..];
    assert path == mod + [47] + below;
    var segment :| segment in Split(below, SLASH) && segment in RESERVED_SEGMENTS;
    HostNames(segment);
    var left, right := PieceFound(below, segment, SLASH);
  }

  lemma HostSegmentExactly(mod: text, path: text)
    ensures ForbiddenPurpose(mod, path) <==> HostSegment(mod, path)
  {
    if ForbiddenPurpose(mod, path) {
      HostSegmentFound(mod, path);
    }
    if HostSegment(mod, path) {
      var below: text, left: text, segment: text, right: text {:trigger PieceAt(below, left, segment, right, 47), mod + [47] + below} :|
        path == mod + [47] + below && PieceAt(below, left, segment, right, 47) && HostName(segment);
      assert path[..|mod| + 1] == mod + [47] && path[|mod| + 1..] == below;
      PieceIsFound(below, left, segment, right, SLASH);
      HostNames(segment);
    }
  }

  /** The packages with effects, by tree: net/http and os/exec lie below net and os. */
  ghost predicate TouchesTheWorld(path: text) {
    InTree(path, Ascii("C")) || InTree(path, Ascii("database/sql")) || InTree(path, Ascii("net")) || InTree(path, Ascii("os"))
    || InTree(path, Ascii("plugin")) || InTree(path, Ascii("runtime/cgo")) || InTree(path, Ascii("syscall"))
  }

  lemma EffectsByTree(path: text)
    ensures Effectful(path) <==> TouchesTheWorld(path)
  {
    if InTree(path, Ascii("net/http")) {
      assert Ascii("net/http") == Ascii("net") + Ascii("/http");
      InTreeAbove(Ascii("net"), path, "/http");
    }
    if InTree(path, Ascii("os/exec")) {
      assert Ascii("os/exec") == Ascii("os") + Ascii("/exec");
      InTreeAbove(Ascii("os"), path, "/exec");
    }
    assert Ascii("C") in EFFECTFUL && Ascii("database/sql") in EFFECTFUL && Ascii("net") in EFFECTFUL;
    assert Ascii("os") in EFFECTFUL && Ascii("plugin") in EFFECTFUL && Ascii("runtime/cgo") in EFFECTFUL;
    assert Ascii("syscall") in EFFECTFUL;
  }

  /** The first segment holds a dot. */
  ghost predicate DottedHost(path: text) {
    exists i :: 0 <= i < |path| && path[i] == 46 && forall k :: 0 <= k < i ==> path[k] != 47
  }

  lemma ThirdPartyByDot(path: text)
    ensures ThirdParty(path) <==> DottedHost(path)
  {
    var n := IndexOf(path, SLASH);
    if ThirdParty(path) {
      var i :| 0 <= i < n && path[..n][i] == DOT;
    }
    if DottedHost(path) {
      var i :| 0 <= i < |path| && path[i] == 46 && forall k :: 0 <= k < i ==> path[k] != 47;
      assert i < n;
      assert path[..n][i] == DOT;
    }
  }

  /** What one package may import, by directory and by name. */
  ghost predicate ImportAllowed(mod: text, from: text, to: text, allowedCLI: seq<text>) {
    if InTree(to, mod) then
      && (Under(mod, "/internal/domain", from) ==> Under(mod, "/internal/domain", to))
      && (Under(mod, "/internal/app", from) ==> Under(mod, "/internal/app", to) || Under(mod, "/internal/domain", to))
      && (Under(mod, "/internal/infra", from) ==> Under(mod, "/internal/infra", to) || Under(mod, "/internal/domain", to))
      && (Under(mod, "/internal/cli", from) ==>
            || Under(mod, "/internal/cli", to) || Under(mod, "/internal/app", to)
            || Under(mod, "/internal/infra", to) || Under(mod, "/internal/domain", to))
      && (Under(mod, "/cmd", from) ==> Under(mod, "/internal/cli", to))
    else
      && (Under(mod, "/internal/domain", from) ==> to != Ascii("context"))
      && (Under(mod, "/internal/domain", from) || Under(mod, "/internal/app", from) ==>
            !TouchesTheWorld(to) && !InTree(to, Ascii("log")) && !DottedHost(to))
      && (Under(mod, "/internal/cli", from) ==> !TouchesTheWorld(to) && (DottedHost(to) ==> to in allowedCLI))
      && (Under(mod, "/cmd", from) ==>
            to == Ascii("context") || to == Ascii("os") || to == Ascii("os/signal") || to == Ascii("syscall"))
  }

  ghost predicate InProductionTree(mod: text, path: text) {
    Under(mod, "/cmd", path) || Under(mod, "/internal/domain", path) || Under(mod, "/internal/app", path)
    || Under(mod, "/internal/infra", path) || Under(mod, "/internal/cli", path)
  }

  lemma ImportAllowedInside(mod: text, from: text, to: text, allowedCLI: seq<text>)
    requires InProductionTree(mod, from) && InTree(to, mod)
    ensures ForbiddenImportReason(mod, PackageLayer(mod, from), to, allowedCLI) == Allowed <==> ImportAllowed(mod, from, to, allowedCLI)
  {
    LayersByPath(mod, from);
    LayersByPath(mod, to);
  }

  lemma CommandImports(path: text)
    ensures path in COMMAND_IMPORTS <==>
              path == Ascii("context") || path == Ascii("os") || path == Ascii("os/signal") || path == Ascii("syscall")
  {
    assert COMMAND_IMPORTS[0] == Ascii("context") && COMMAND_IMPORTS[1] == Ascii("os");
    assert COMMAND_IMPORTS[2] == Ascii("os/signal") && COMMAND_IMPORTS[3] == Ascii("syscall");
  }

  lemma OutsideRule(mod: text, from: Layer, to: text, allowedCLI: seq<text>)
    requires PackageLayer(mod, to) == External
    ensures var allowed := ForbiddenImportReason(mod, from, to, allowedCLI) == Allowed;
            && (from == Domain ==> (allowed <==> to != Ascii("context") && !Effectful(to) && !Logging(to) && !ThirdParty(to)))
            && (from == App ==> (allowed <==> !Effectful(to) && !Logging(to) && !ThirdParty(to)))
            && (from == Infra ==> allowed)
            && (from == Cli ==> (allowed <==> !Effectful(to) && (ThirdParty(to) ==> to in allowedCLI)))
            && (from == Cmd ==> (allowed <==> to in COMMAND_IMPORTS))
  {
  }

  lemma ImportAllowedOutside(mod: text, from: text, to: text, allowedCLI: seq<text>)
    requires InProductionTree(mod, from) && !InTree(to, mod)
    ensures ForbiddenImportReason(mod, PackageLayer(mod, from), to, allowedCLI) == Allowed <==> ImportAllowed(mod, from, to, allowedCLI)
  {
    LayersByPath(mod, from);
    LayersByPath(mod, to);
    EffectsByTree(to);
    ThirdPartyByDot(to);
    CommandImports(to);
    OutsideRule(mod, PackageLayer(mod, from), to, allowedCLI);
  }

  /** A listed package with which nothing is wrong: tools and other modules, or a placed package that imports as allowed. */
  ghost predicate PackageAllowed(mod: text, item: ListedPackage, allowedCLI: seq<text>) {
    || !InTree(item.importPath, mod)
    || Under(mod, "/tools", item.importPath)
    || (InProductionTree(mod, item.importPath) && !HostSegment(mod, item.importPath)
        && forall i :: 0 <= i < |item.imports| ==> ImportAllowed(mod, item.importPath, item.imports[i], allowedCLI))
  }

  lemma CleanByName(mod: text, item: ListedPackage, allowedCLI: seq<text>)
    ensures PackageClean(mod, item, allowedCLI) <==> PackageAllowed(mod, item, allowedCLI)
  {
    LayersByPath(mod, item.importPath);
    HostSegmentExactly(mod, item.importPath);
    if InProductionTree(mod, item.importPath) {
      forall i | 0 <= i < |item.imports|
        ensures ForbiddenImportReason(mod, PackageLayer(mod, item.importPath), item.imports[i], allowedCLI) == Allowed
           <==> ImportAllowed(mod, item.importPath, item.imports[i], allowedCLI)
      {
        if InTree(item.imports[i], mod) {
          ImportAllowedInside(mod, item.importPath, item.imports[i], allowedCLI);
        } else {
          ImportAllowedOutside(mod, item.importPath, item.imports[i], allowedCLI);
        }
      }
    }
  }

  /** The report is empty exactly when every listed production package is placed and imports as allowed. */
  lemma {:induction false} EmptyReport(mod: text, packages: seq<ListedPackage>, allowedCLI: seq<text>)
    ensures AllViolations(mod, packages, allowedCLI) == [] <==>
              forall k :: 0 <= k < |packages| ==> PackageAllowed(mod, packages[k], allowedCLI)
  {
    if packages != [] {
      EmptyReport(mod, packages[1..], allowedCLI);
      CleanExactly(mod, packages[0], allowedCLI);
      CleanByName(mod, packages[0], allowedCLI);
      assert forall k :: 1 <= k < |packages| ==> packages[k] == packages[1..][k - 1];
    }
  }

  // ----- the report by name

  /** When each complaint about an import is due, by directory and by name. */
  ghost predicate ReasonByName(mod: text, from: text, to: text, allowedCLI: seq<text>, reason: Reason) {
    match reason
    case ImportsTools => Under(mod, "/tools", to)
    case OutsideLayers => InTree(to, mod) && !Under(mod, "/tools", to) && !InProductionTree(mod, to)
    case DomainOnlyDomain => Under(mod, "/internal/domain", from) && InProductionTree(mod, to) && !Under(mod, "/internal/domain", to)
    case AppOnlyAppAndDomain =>
      Under(mod, "/internal/app", from) && InProductionTree(mod, to)
      && !Under(mod, "/internal/app", to) && !Under(mod, "/internal/domain", to)
    case InfraOnlyInfraAndDomain =>
      Under(mod, "/internal/infra", from) && InProductionTree(mod, to)
      && !Under(mod, "/internal/infra", to) && !Under(mod, "/internal/domain", to)
    case CliImportsCmd => Under(mod, "/internal/cli", from) && Under(mod, "/cmd", to)
    case CmdOnlyCli =>
      Under(mod, "/cmd", from)
      && if InTree(to, mod) then InProductionTree(mod, to) && !Under(mod, "/internal/cli", to)
         else to != Ascii("context") && to != Ascii("os") && to != Ascii("os/signal") && to != Ascii("syscall")
    case DomainImportsContext => Under(mod, "/internal/domain", from) && !InTree(to, mod) && to == Ascii("context")
    case DomainImportsEffects =>
      Under(mod, "/internal/domain", from) && !InTree(to, mod) && to != Ascii("context")
      && (TouchesTheWorld(to) || InTree(to, Ascii("log")))
    case DomainImportsThirdParty =>
      Under(mod, "/internal/domain", from) && !InTree(to, mod) && to != Ascii("context")
      && !TouchesTheWorld(to) && !InTree(to, Ascii("log")) && DottedHost(to)
    case AppImportsEffects =>
      Under(mod, "/internal/app", from) && !InTree(to, mod) && (TouchesTheWorld(to) || InTree(to, Ascii("log")))
    case AppImportsThirdParty =>
      Under(mod, "/internal/app", from) && !InTree(to, mod)
      && !TouchesTheWorld(to) && !InTree(to, Ascii("log")) && DottedHost(to)
    case CliImportsEffects => Under(mod, "/internal/cli", from) && !InTree(to, mod) && TouchesTheWorld(to)
    case CliImportsThirdParty =>
      Under(mod, "/internal/cli", from) && !InTree(to, mod) && !TouchesTheWorld(to) && DottedHost(to) && to !in allowedCLI
    case _ => false
  }

  predicate InProduction(layer: Layer) {
    layer == Cmd || Confined(layer)
  }

  lemma ReasonsByLayer(from: Layer, to: Layer, reason: Reason)
    requires InProduction(from) && to != External && reason != Allowed
    ensures ForbiddenReason(from, to) == reason <==>
              match reason
              case ImportsTools => to == Tool
              case OutsideLayers => to == Unclassified
              case DomainOnlyDomain => from == Domain && InProduction(to) && to != Domain
              case AppOnlyAppAndDomain => from == App && InProduction(to) && to != App && to != Domain
              case InfraOnlyInfraAndDomain => from == Infra && InProduction(to) && to != Infra && to != Domain
              case CliImportsCmd => from == Cli && to == Cmd
              case CmdOnlyCli => from == Cmd && InProduction(to) && to != Cli
              case _ => false
  {
  }

  lemma ReasonsInside(mod: text, from: text, to: text, allowedCLI: seq<text>, reason: Reason)
    requires InProductionTree(mod, from) && InTree(to, mod) && reason != Allowed
    ensures ForbiddenImportReason(mod, PackageLayer(mod, from), to, allowedCLI) == reason <==> ReasonByName(mod, from, to, allowedCLI, reason)
  {
    LayersByPath(mod, from);
    LayersByPath(mod, to);
    ReasonsByLayer(PackageLayer(mod, from), PackageLayer(mod, to), reason);
  }

  lemma ReasonsForCore(mod: text, from: Layer, to: text, allowedCLI: seq<text>, reason: Reason)
    requires (from == Domain || from == App) && PackageLayer(mod, to) == External && reason != Allowed
    ensures ForbiddenImportReason(mod, from, to, allowedCLI) == reason <==>
              match reason
              case DomainImportsContext => from == Domain && to == Ascii("context")
              case DomainImportsEffects => from == Domain && to != Ascii("context") && (Effectful(to) || Logging(to))
              case DomainImportsThirdParty =>
                from == Domain && to != Ascii("context") && !Effectful(to) && !Logging(to) && ThirdParty(to)
              case AppImportsEffects => from == App && (Effectful(to) || Logging(to))
              case AppImportsThirdParty => from == App && !Effectful(to) && !Logging(to) && ThirdParty(to)
              case _ => false
  {
  }

  lemma ReasonsForEdge(mod: text, from: Layer, to: text, allowedCLI: seq<text>, reason: Reason)
    requires (from == Cli || from == Cmd || from == Infra) && PackageLayer(mod, to) == External && reason != Allowed
    ensures ForbiddenImportReason(mod, from, to, allowedCLI) == reason <==>
              match reason
              case CliImportsEffects => from == Cli && Effectful(to)
              case CliImportsThirdParty => from == Cli && !Effectful(to) && ThirdParty(to) && to !in allowedCLI
              case CmdOnlyCli => from == Cmd && to !in COMMAND_IMPORTS
              case _ => false
  {
  }

  lemma ReasonsOutside(mod: text, from: text, to: text, allowedCLI: seq<text>, reason: Reason)
    requires InProductionTree(mod, from) && !InTree(to, mod) && reason != Allowed
    ensures ForbiddenImportReason(mod, PackageLayer(mod, from), to, allowedCLI) == reason <==> ReasonByName(mod, from, to, allowedCLI, reason)
  {
    var layer := PackageLayer(mod, from);
    LayersByPath(mod, from);
    LayersByPath(mod, to);
    DirectoriesInModule(mod, to);
    EffectsByTree(to);
    ThirdPartyByDot(to);
    CommandImports(to);
    if layer == Domain || layer == App {
      ReasonsForCore(mod, layer, to, allowedCLI, reason);
    } else {
      ReasonsForEdge(mod, layer, to, allowedCLI, reason);
    }
  }

  /** The complaints about one listed package. */
  ghost predicate ReportedFor(mod: text, item: ListedPackage, allowedCLI: seq<text>, v: Violation) {
    v.from == item.importPath && InTree(v.from, mod) && !Under(mod, "/tools", v.from)
    && match v.reason
       case AgentHostPackage => v.to == v.from && HostSegment(mod, v.from)
       case UnplacedPackage => v.to == v.from && !InProductionTree(mod, v.from)
       case _ => InProductionTree(mod, v.from) && v.to in item.imports && ReasonByName(mod, v.from, v.to, allowedCLI, v.reason)
  }

  lemma {:induction false} ImportReported(mod: text, layer: Layer, path: text, imports: seq<text>, allowedCLI: seq<text>, v: Violation)
    ensures v in ImportViolations(mod, layer, path, imports, allowedCLI) <==>
              v.from == path && v.to in imports && v.reason != Allowed
              && v.reason == ForbiddenImportReason(mod, layer, v.to, allowedCLI)
  {
    if imports != [] {
      ImportReported(mod, layer, path, imports[1..], allowedCLI, v);
    }
  }

  lemma ReasonNamed(mod: text, from: text, to: text, allowedCLI: seq<text>, reason: Reason)
    requires InProductionTree(mod, from)
    ensures reason != Allowed && reason == ForbiddenImportReason(mod, PackageLayer(mod, from), to, allowedCLI)
       <==> ReasonByName(mod, from, to, allowedCLI, reason)
  {
    if reason != Allowed {
      if InTree(to, mod) {
        ReasonsInside(mod, from, to, allowedCLI, reason);
      } else {
        ReasonsOutside(mod, from, to, allowedCLI, reason);
      }
    }
  }

  lemma PackageReported(mod: text, item: ListedPackage, allowedCLI: seq<text>, v: Violation)
    ensures v in PackageViolations(mod, item, allowedCLI) <==> ReportedFor(mod, item, allowedCLI, v)
  {
    var path := item.importPath;
    LayersByPath(mod, path);
    HostSegmentExactly(mod, path);
    if InProductionTree(mod, path) {
      ImportReported(mod, PackageLayer(mod, path), path, item.imports, allowedCLI, v);
      ReasonNamed(mod, path, v.to, allowedCLI, v.reason);
    }
  }

  /** What is reported, by directory and by name, and nothing else. */
  lemma {:induction false} ReportedExactly(mod: text, packages: seq<ListedPackage>, allowedCLI: seq<text>, v: Violation)
    ensures v in AllViolations(mod, packages, allowedCLI) <==>
              exists k :: 0 <= k < |packages| && ReportedFor(mod, packages[k], allowedCLI, v)
  {
    if packages != [] {
      ReportedExactly(mod, packages[1..], allowedCLI, v);
      PackageReported(mod, packages[0], allowedCLI, v);
      assert forall k :: 1 <= k < |packages| ==> packages[k] == packages[1..][k - 1];
    }
  }

  // ----- the loops

  /** findViolationsWithCLIAllowlist: the report is every violation, sorted. */
  method FindViolations(mod: text, packages: seq<ListedPackage>, allowedCLI: seq<text>) returns (found: seq<Violation>)
    ensures SortedPermutation(AllViolations(mod, packages, allowedCLI), found, ByFromToReason)
    ensures found == [] <==> AllViolations(mod, packages, allowedCLI) == []
    ensures forall v :: v in found <==> exists k :: 0 <= k < |packages| && ReportedFor(mod, packages[k], allowedCLI, v)
    ensures found == [] <==> forall k :: 0 <= k < |packages| ==> PackageAllowed(mod, packages[k], allowedCLI)
  {
    found := [];
    for k := 0 to |packages|
      invariant AllViolations(mod, packages, allowedCLI) == found + AllViolations(mod, packages[k..], allowedCLI)
    {
      var item := packages[k];
      assert packages[k..][1..] == packages[k + 1..];
      var inPackage := CheckPackage(mod, item, allowedCLI);
      Regroup(found, inPackage, AllViolations(mod, packages[k + 1..], allowedCLI));
      found := found + inPackage;
    }
    assert found + [] == found;
    ByFromToReasonIsStrictWeak();
    var sorted := SortSlice(found, ByFromToReason);
    SameCount(found, sorted);
    EmptyReport(mod, packages, allowedCLI);
    forall v ensures v in sorted <==> exists k :: 0 <= k < |packages| && ReportedFor(mod, packages[k], allowedCLI, v) {
      assert v in sorted <==> v in multiset(sorted);
      ReportedExactly(mod, packages, allowedCLI, v);
    }
    found := sorted;
  }

  lemma SameCount<T>(s: seq<T>, t: seq<T>)
    requires multiset(s) == multiset(t)
    ensures s == [] <==> t == []
  {
    assert s != [] ==> s[0] in multiset(s);
    assert t != [] ==> t[0] in multiset(t);
  }

  method CheckPackage(mod: text, item: ListedPackage, allowedCLI: seq<text>) returns (found: seq<Violation>)
    ensures found == PackageViolations(mod, item, allowedCLI)
  {
    var fromLayer := PackageLayer(mod, item.importPath);
    if fromLayer == External || fromLayer == Tool {
      return [];
    }
    found := PlaceViolations(mod, item.importPath);
    if fromLayer == Unclassified {
      assert found + [] == found;
      return;
    }
    var imports := CheckImports(mod, fromLayer, item, allowedCLI);
    found := found + imports;
  }

  method CheckImports(mod: text, fromLayer: Layer, item: ListedPackage, allowedCLI: seq<text>) returns (found: seq<Violation>)
    ensures found == ImportViolations(mod, fromLayer, item.importPath, item.imports, allowedCLI)
  {
    found := [];
    for i := 0 to |item.imports|
      invariant ImportViolations(mod, fromLayer, item.importPath, item.imports, allowedCLI)
             == found + ImportViolations(mod, fromLayer, item.importPath, item.imports[i..], allowedCLI)
    {
      var imported := item.imports[i];
      var reason := ForbiddenImportReason(mod, fromLayer, imported, allowedCLI);
      ImportStep(mod, fromLayer, item.importPath, item.imports, allowedCLI, i, found);
      if reason != Allowed {
        found := found + [Violation(item.importPath, imported, reason)];
      } else {
        assert found + [] == found;
      }
    }
    assert found + [] == found;
  }

  // ----- import chains

  predicate Imports(packages: seq<ListedPackage>, from: text, to: text) {
    exists k :: 0 <= k < |packages| && packages[k].importPath == from && to in packages[k].imports
  }

  /** Each path is imported by a listed package of the path before it, and none before the last has left the module. */
  predicate IsChain(mod: text, packages: seq<ListedPackage>, chain: seq<text>) {
    chain != []
    && (forall i :: 0 <= i < |chain| - 1 ==> InTree(chain[i], mod) && Imports(packages, chain[i], chain[i + 1]))
  }

  /** Where a chain may lead inside the module. */
  predicate MayReach(from: Layer, to: Layer) {
    match from
    case Domain => to == Domain
    case App => to == App || to == Domain
    case Infra => to == Infra || to == Domain
    case Cli => to == Cli || to == App || to == Infra || to == Domain
    case _ => false
  }

  predicate Confined(from: Layer) {
    from == Domain || from == App || from == Infra || from == Cli
  }

  /** Between layers of the module the rule for one import and the reach of whole chains are the same relation. */
  lemma RuleIsReach(from: Layer, to: Layer)
    requires Confined(from) && to != External
    ensures ForbiddenReason(from, to) == Allowed <==> MayReach(from, to)
  {
  }

  lemma {:induction false} LayersStayConfined(mod: text, packages: seq<ListedPackage>, allowedCLI: seq<text>, chain: seq<text>)
    requires AllViolations(mod, packages, allowedCLI) == [] && IsChain(mod, packages, chain)
    requires Confined(PackageLayer(mod, chain[0]))
    ensures var first, last := PackageLayer(mod, chain[0]), PackageLayer(mod, chain[|chain| - 1]);
            last == External || MayReach(first, last)
  {
    if |chain| > 1 {
      var before := chain[..|chain| - 1];
      var n := |before|;
      assert IsChain(mod, packages, before) by {
        forall i | 0 <= i < n - 1 ensures Imports(packages, before[i], before[i + 1]) {
          assert Imports(packages, chain[i], chain[i + 1]);
        }
      }
      LayersStayConfined(mod, packages, allowedCLI, before);
      assert Imports(packages, chain[n - 1], chain[n]);
      LayersByPath(mod, chain[n - 1]);
      AllowedImport(mod, packages, allowedCLI, chain[n - 1], chain[n]);
      ExtendReach(PackageLayer(mod, chain[0]), PackageLayer(mod, chain[n - 1]), PackageLayer(mod, chain[n]));
    }
  }

  lemma ExtendReach(first: Layer, last: Layer, next: Layer)
    requires Confined(first) && (first == last || MayReach(first, last))
    requires next == External || ForbiddenReason(last, next) == Allowed
    ensures next == External || MayReach(first, next)
  {
  }

  lemma AllowedImport(mod: text, packages: seq<ListedPackage>, allowedCLI: seq<text>, from: text, to: text)
    requires AllViolations(mod, packages, allowedCLI) == [] && Imports(packages, from, to)
    requires PackageLayer(mod, from) != External && PackageLayer(mod, from) != Tool
    ensures ForbiddenImportReason(mod, PackageLayer(mod, from), to, allowedCLI) == Allowed
    ensures PackageLayer(mod, to) != External ==> ForbiddenReason(PackageLayer(mod, from), PackageLayer(mod, to)) == Allowed
    ensures InProductionTree(mod, from) && ImportAllowed(mod, from, to, allowedCLI)
  {
    EmptyReport(mod, packages, allowedCLI);
    LayersByPath(mod, from);
    var k :| 0 <= k < |packages| && packages[k].importPath == from && to in packages[k].imports;
    assert PackageAllowed(mod, packages[k], allowedCLI);
    CleanByName(mod, packages[k], allowedCLI);
  }

  /** The directories a chain that starts in `first` may lead to; it may also leave the module. */
  ghost predicate StaysInside(mod: text, first: text, last: text) {
    InTree(last, mod) ==>
      && (Under(mod, "/internal/domain", first) ==> Under(mod, "/internal/domain", last))
      && (Under(mod, "/internal/app", first) ==> Under(mod, "/internal/app", last) || Under(mod, "/internal/domain", last))
      && (Under(mod, "/internal/infra", first) ==> Under(mod, "/internal/infra", last) || Under(mod, "/internal/domain", last))
      && (Under(mod, "/internal/cli", first) ==>
            || Under(mod, "/internal/cli", last) || Under(mod, "/internal/app", last)
            || Under(mod, "/internal/infra", last) || Under(mod, "/internal/domain", last))
  }

  lemma ReachByPath(mod: text, first: text, last: text)
    requires Confined(PackageLayer(mod, first)) ==>
               PackageLayer(mod, last) == External || MayReach(PackageLayer(mod, first), PackageLayer(mod, last))
    ensures StaysInside(mod, first, last)
  {
    LayersByPath(mod, first);
    LayersByPath(mod, last);
  }

  /** With an empty report no chain leaves the directories its first package may reach. */
  lemma ChainsStayConfined(mod: text, packages: seq<ListedPackage>, allowedCLI: seq<text>, chain: seq<text>)
    requires AllViolations(mod, packages, allowedCLI) == [] && IsChain(mod, packages, chain)
    ensures StaysInside(mod, chain[0], chain[|chain| - 1])
  {
    if Confined(PackageLayer(mod, chain[0])) {
      LayersStayConfined(mod, packages, allowedCLI, chain);
    }
    ReachByPath(mod, chain[0], chain[|chain| - 1]);
  }

  /** An entry point reaches the command line first and only production layers through it. */
  lemma EntryPointChains(mod: text, packages: seq<ListedPackage>, allowedCLI: seq<text>, chain: seq<text>)
    requires AllViolations(mod, packages, allowedCLI) == [] && IsChain(mod, packages, chain)
    requires Under(mod, "/cmd", chain[0]) && |chain| >= 2 && InTree(chain[1], mod)
    ensures Under(mod, "/internal/cli", chain[1])
    ensures StaysInside(mod, chain[1], chain[|chain| - 1])
  {
    assert Imports(packages, chain[0], chain[1]);
    LayersByPath(mod, chain[0]);
    AllowedImport(mod, packages, allowedCLI, chain[0], chain[1]);
    var rest := chain[1..];
    forall i | 0 <= i < |rest| - 1 ensures InTree(rest[i], mod) && Imports(packages, rest[i], rest[i + 1]) {
      assert rest[i] == chain[i + 1] && rest[i + 1] == chain[i + 2];
      assert Imports(packages, chain[i + 1], chain[i + 2]);
    }
    ChainsStayConfined(mod, packages, allowedCLI, rest);
  }

  /** No package reachable from app or domain imports an effectful, logging or third-party package. */
  lemma CoreIsPure(mod: text, packages: seq<ListedPackage>, allowedCLI: seq<text>, chain: seq<text>, imported: text)
    requires AllViolations(mod, packages, allowedCLI) == [] && IsChain(mod, packages, chain)
    requires Under(mod, "/internal/app", chain[0]) || Under(mod, "/internal/domain", chain[0])
    requires InTree(chain[|chain| - 1], mod) && Imports(packages, chain[|chain| - 1], imported)
    requires !InTree(imported, mod)
    ensures !TouchesTheWorld(imported) && !InTree(imported, Ascii("log")) && !DottedHost(imported)
    ensures Under(mod, "/internal/domain", chain[0]) ==> imported != Ascii("context")
  {
    var last := chain[|chain| - 1];
    ChainsStayConfined(mod, packages, allowedCLI, chain);
    LayersByPath(mod, last);
    AllowedImport(mod, packages, allowedCLI, last, imported);
  }

  /** Conversely, if every chain is confined then no import inside the module is one the rule forbids. */
  lemma ConfinementNeedsTheRule(mod: text, packages: seq<ListedPackage>, allowedCLI: seq<text>, from: text, to: text)
    requires forall chain :: IsChain(mod, packages, chain) ==> StaysInside(mod, chain[0], chain[|chain| - 1])
    requires InProductionTree(mod, from) && !Under(mod, "/cmd", from)
    requires Imports(packages, from, to) && InTree(to, mod)
    ensures ForbiddenImportReason(mod, PackageLayer(mod, from), to, allowedCLI) == Allowed
  {
    var chain := [from, to];
    LayersByPath(mod, from);
    assert IsChain(mod, packages, chain) && chain[0] == from && chain[|chain| - 1] == to;
    TopDirectoriesApart(mod, from);
    InternalDirectoriesApart(mod, from);
    ImportAllowedInside(mod, from, to, allowedCLI);
  }

  // ----- the same package listed for several targets

  /** mergeStrings: the sorted union without repetition, whatever order the map yields. */
  method MergeStrings(left: seq<text>, right: seq<text>) returns (merged: seq<text>)
    ensures forall s :: s in merged <==> s in left || s in right
    ensures forall i, j :: 0 <= i < j < |merged| ==> Less(merged[i], merged[j])
  {
    var seen: set<text> := {};
    for i := 0 to |left|
      invariant forall s :: s in seen <==> s in left[..i]
    {
      seen := seen + {left[i]};
    }
    assert left[..|left|] == left;
    for i := 0 to |right|
      invariant forall s :: s in seen <==> s in left || s in right[..i]
    {
      seen := seen + {right[i]};
    }
    assert right[..|right|] == right;
    merged := SortedKeys(seen);
  }

  /** Merging the import lists of several targets hides no violation and invents none. */
  lemma MergeKeepsVerdict(mod: text, path: text, left: seq<text>, right: seq<text>, merged: seq<text>, allowedCLI: seq<text>)
    requires forall s :: s in merged <==> s in left || s in right
    ensures PackageViolations(mod, ListedPackage(path, merged), allowedCLI) == [] <==>
              PackageViolations(mod, ListedPackage(path, left), allowedCLI) == []
              && PackageViolations(mod, ListedPackage(path, right), allowedCLI) == []
  {
    var layer := PackageLayer(mod, path);
    AllowedByElement(mod, layer, path, left, allowedCLI);
    AllowedByElement(mod, layer, path, right, allowedCLI);
    AllowedByElement(mod, layer, path, merged, allowedCLI);
  }

  lemma AllowedByElement(mod: text, layer: Layer, path: text, imports: seq<text>, allowedCLI: seq<text>)
    ensures ImportViolations(mod, layer, path, imports, allowedCLI) == [] <==>
              forall s :: s in imports ==> ForbiddenImportReason(mod, layer, s, allowedCLI) == Allowed
  {
    NoImportViolation(mod, layer, path, imports, allowedCLI);
    assert forall i :: 0 <= i < |imports| ==> imports[i] in imports;
  }
}
