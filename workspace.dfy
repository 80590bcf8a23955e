/** The shared `/tmp` working directory of `POST /process`: the removal of
    stale files, the lookup of the reference dataset in the application
    directory, and the names that staging writes under. */
module Workspace {
  import opened Http
  import opened Text
  import opened Upload

  const TestKmzName := "TEST.kmz"
  const TestKmlName := "TEST.kml"
  /** The name the transform script expects the reference dataset under. */
  const BaseName := "Transmission Network.kmz"
  /** The name of the transform's output. */
  const OutputName := "Exportado.kmz"
  /** The transform script, in the application directory and in `/tmp`. */
  const ScriptName := "informative-letters-v3.py"

  /** The files removed from `/tmp` before anything is staged, in order. */
  const StaleNames: seq<string> := [TestKmzName, TestKmlName, BaseName, OutputName, ScriptName]

  /** The names the reference dataset may have in the application directory,
      in order of preference. */
  const Candidates: seq<string> := ["DATABASE.kmz", "Database.kmz", "Transmission Network.kmz"]

  const ScriptMissingDetail := "Falta informative-letters-v3.py en el contenedor"

  /** The canonical name of the staged upload: chosen by its kind only. */
  function InputName(kind: Kind): (n: string)
    ensures n in StaleNames
    ensures (n == TestKmzName) == (kind == Kmz)
    ensures (n == TestKmlName) == (kind == Kml)
  {
    match kind
    case Kmz => TestKmzName
    case Kml => TestKmlName
  }

  // ---------------------------------------------------------------------------
  // Removing stale files

  /** The stale names whose removal succeeds. `undeletable` holds the names
      for which `os.remove` raises (a permission problem, say); the
      handler swallows that error and moves on. */
  function Removable(undeletable: set<string>): set<string> {
    set n | n in StaleNames && n !in undeletable
  }

  function Cleaned(tmp: Dir, undeletable: set<string>): Dir {
    tmp - Removable(undeletable)
  }

  /** The names among the first `i` stale names whose removal succeeds. */
  function RemovedSoFar(i: nat, undeletable: set<string>): set<string>
    requires i <= |StaleNames|
  {
    set k | 0 <= k < i && StaleNames[k] !in undeletable :: StaleNames[k]
  }

  /** The cleanup loop: every stale file that exists is removed, a failed
      removal is ignored, and no other entry of `/tmp` is touched. */
  method Cleanup(tmp: Dir, undeletable: set<string>) returns (d: Dir)
    ensures d == Cleaned(tmp, undeletable)
    ensures forall n :: n in StaleNames && n !in undeletable ==> n !in d
    ensures forall n :: n !in StaleNames || n in undeletable ==> (n in d <==> n in tmp)
    ensures forall n :: n in d ==> n in tmp && d[n] == tmp[n]
  {
    d := tmp;
    for i := 0 to |StaleNames|
      invariant d == tmp - RemovedSoFar(i, undeletable)
    {
      var name := StaleNames[i];
      if name in d {
        if name !in undeletable {
          d := d - {name};
        }
        // otherwise os.remove raised, and the error is ignored
      }
      assert RemovedSoFar(i + 1, undeletable)
          == RemovedSoFar(i, undeletable) + (if name in undeletable then {} else {name});
    }
    assert RemovedSoFar(|StaleNames|, undeletable) == Removable(undeletable) by {
      forall n | n in Removable(undeletable)
        ensures n in RemovedSoFar(|StaleNames|, undeletable)
      {
        var k :| 0 <= k < |StaleNames| && StaleNames[k] == n;
      }
    }
  }

  // ---------------------------------------------------------------------------
  // Finding the reference dataset

  /** The position of the first of `names` that `d` holds, if any. */
  function FirstPresent(names: seq<string>, d: Dir): (r: Option<nat>)
    ensures r.Some? ==> r.value < |names| && names[r.value] in d
    ensures r.Some? ==> forall j :: 0 <= j < r.value ==> names[j] !in d
    ensures r.None? ==> forall j :: 0 <= j < |names| ==> names[j] !in d
  {
    if names == [] then None
    else if names[0] in d then Some(0)
    else
      match FirstPresent(names[1..], d)
      case None => None
      case Some(k) => Some(k + 1)
  }

  /** `listing` is what `os.listdir` returns for `d`: each of its entries once,
      in an order the operating system chooses. */
  ghost predicate IsListingOf(listing: seq<string>, d: Dir) {
    NoDuplicates(listing) && forall n :: n in listing <==> n in d
  }

  /** The diagnostic raised when no candidate exists: the candidates as a
      Python list repr and the sorted directory listing joined by ", ". */
  function BaseMissingDetail(listing: seq<string>): string {
    "No se encontró el KMZ base (probé " + ListRepr(Candidates)
    + "). Archivos en app/: " + Join(", ", Sort(listing))
  }

  /** `_find_base_kmz`: the first candidate the application directory holds,
      or a 500 carrying the diagnostic. */
  method FindBaseKmz(app: Dir, listing: seq<string>) returns (r: Result<string>)
    ensures r.Ok? <==> FirstPresent(Candidates, app).Some?
    ensures r.Ok? ==> r.value == Candidates[FirstPresent(Candidates, app).value] && r.value in app
    ensures r.Err? ==> r.error == HttpError(500, BaseMissingDetail(listing))
  {
    for i := 0 to |Candidates|
      invariant forall j :: 0 <= j < i ==> Candidates[j] !in app
    {
      if Candidates[i] in app {
        return Ok(Candidates[i]);
      }
    }
    return Err(HttpError(500, BaseMissingDetail(listing)));
  }

  /** When several candidates exist the earliest one is chosen. */
  lemma BaseLookupPriority(app: Dir, k: nat)
    requires k < |Candidates| && Candidates[k] in app
    ensures FirstPresent(Candidates, app).Some?
    ensures FirstPresent(Candidates, app).value <= k
    ensures Candidates[0] in app ==> FirstPresent(Candidates, app) == Some(0)
  {
  }

  /** The diagnostic names every candidate that was tried and every file the
      application directory holds. */
  lemma {:induction false} BaseMissingDetailNamesAll(listing: seq<string>, app: Dir)
    requires IsListingOf(listing, app)
    ensures forall i :: 0 <= i < |Candidates| ==> Contains(BaseMissingDetail(listing), Candidates[i])
    ensures forall n :: n in app ==> Contains(BaseMissingDetail(listing), n)
  {
    var prefix := "No se encontró el KMZ base (probé ";
    var middle := "). Archivos en app/: ";
    var joined := Join(", ", Sort(listing));
    assert BaseMissingDetail(listing) == prefix + ListRepr(Candidates) + (middle + joined);
    forall i | 0 <= i < |Candidates|
      ensures Contains(BaseMissingDetail(listing), Candidates[i])
    {
      ListReprContains(Candidates, i);
      ContainsInContext(prefix, ListRepr(Candidates), middle + joined, Candidates[i]);
    }
    assert BaseMissingDetail(listing) == prefix + ListRepr(Candidates) + middle + joined + "";
    forall n | n in app
      ensures Contains(BaseMissingDetail(listing), n)
    {
      var sorted := Sort(listing);
      assert n in multiset(listing);
      assert n in multiset(sorted);
      var i :| 0 <= i < |sorted| && sorted[i] == n;
      JoinContains(", ", sorted, i);
      ContainsInContext(prefix + ListRepr(Candidates) + middle, joined, "", n);
    }
  }

  /** The diagnostic does not depend on the order `os.listdir` happened to
      return the entries in. */
  lemma BaseMissingDetailIgnoresListingOrder(l1: seq<string>, l2: seq<string>, app: Dir)
    requires IsListingOf(l1, app) && IsListingOf(l2, app)
    ensures BaseMissingDetail(l1) == BaseMissingDetail(l2)
  {
    SameElementsSameMultiset(l1, l2);
    SortIgnoresOrder(l1, l2);
  }
}
