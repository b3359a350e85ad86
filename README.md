# mujoco_warp collision core and version checks, modelled in Dafny

This project models two pieces of mujoco_warp.

**The collision core** (`mujoco_warp/_src/collision_core.py`) has four parts:

- `write_contact` commits one detected contact into a bounded contact buffer.
  - It drops contacts that want neither a constraint nor a sensor.
  - It classifies kept contacts with the CONSTRAINT and SENSOR bits.
  - It reserves a slot by bumping the shared counter, and writes the record only below capacity.
- `contact_params` resolves the solver parameters of a contact. It takes them from an explicit pair override, or mixes them from the two geometries by priority and solmix weight. It then raises friction to the floor `MJ_MINMU`.
- `geom_collision_pair` builds the two geometry views of a candidate pair.
- `create_collision_context` allocates the three broadphase hand-off arrays.

**The package version check** (`mujoco_warp/_src/util_pkg.py`) has two parts:

- `_parse_version` splits a version string on `.` and `-` and tags each piece: `(0, int)` for all-digit pieces, `(1, str)` otherwise.
- `check_version` parses a spec `name op version` with a regular expression, looks the package up, and compares the two tagged tuples with Python's operators.

## Files

- `wrappers.dfy`: `Option` and `Result`.
- `collision_types.dfy`: Warp's small vectors and matrices over `real`, and the world-broadcast row rule `worldid % rows`.
- `geom_views.dfy`: `geom_collision_pair`, as pure functions.
- `contact_params.dfy`: `contact_params`, as pure functions over `real`. `MJ_MINVAL` and `MJ_MINMU` are positive parameters.
- `contact_commit.dfy`: `write_contact`.
  - The class `ContactBuffer` holds the thirteen output arrays and the counter `nacon`.
  - Its method `WriteContact` is proved against the specification function `Commit`.
  - The function `Run` folds `Commit` over a sequence of calls, for the lemmas about many calls.
- `collision_context.dfy`: `create_collision_context`, as a class constructor.
- `py_compare.dfy`: Python's rich comparison of sequences (`SeqOp`).
  - It is proved to agree with a lexicographic order (`LexLess`) in which a proper prefix comes first.
- `util_pkg.dfy`: version parsing, spec parsing and `check_version`.
- `util_pkg_examples.dfy`: the cases in `util_pkg_test.py`, each proved from the model.

## Model

| member | source | states |
|---|---|---|
| CollisionTypes.WorldRow | mujoco_warp/_src/collision_core.py:276-281 | The row read for a world is always in range. A one-row table serves every world, and a table with a row per world gives world w row w. |
| GeomViews.GeomView | mujoco_warp/_src/collision_core.py:100-154 | Position and rotation come from the world's row, and size from row `worldid % rows`. The normal is the rotation applied to the z axis, i.e. column 2. index is -1 and margin is 0. A mesh geometry with a negative dataid gets -1 in all five mesh fields, and one with dataid >= 0 gets the mesh tables at dataid. A non-mesh geometry keeps the struct defaults. |
| GeomViews.GeomCollisionPair | mujoco_warp/_src/collision_core.py:92-154 | The first view is the view of geoms[0] and the second the view of geoms[1], in the same world. |
| GeomViews.ViewsIndependent | mujoco_warp/_src/collision_core.py:95-110 | geom1 depends only on g1 and geom2 only on g2; the same id gives the same view in either position. |
| GeomViews.MeshSentinelExact | mujoco_warp/_src/collision_core.py:112-118 | When the mesh tables hold no negative entry, a mesh view reads -1 exactly when the geometry has no mesh. |
| ContactParameters.SolmixWeight | mujoco_warp/_src/collision_core.py:302-305 | The weight is 0.5 when both solmix are below MJ_MINVAL, 0 when only solmix1 is, and 1 when only solmix2 is. Otherwise it lies strictly between 0 and 1 and equals solmix1 / (solmix1 + solmix2). It always lies in [0, 1]. |
| ContactParameters.SolmixWeightSwap | mujoco_warp/_src/collision_core.py:302-305 | Swapping the two solmix values turns the weight w into 1 - w. |
| ContactParameters.EqualSolmixHalves | mujoco_warp/_src/collision_core.py:302-305 | Equal solmix values give the weight 0.5. |
| ContactParameters.MaxFriction | mujoco_warp/_src/collision_core.py:307 | Each component is the larger of the two inputs' components. |
| ContactParameters.MixBetween | mujoco_warp/_src/collision_core.py:318 | A mix by a weight in [0, 1] lies between the two mixed values. |
| ContactParameters.MixSolref | mujoco_warp/_src/collision_core.py:317-320 | When both first components are > 0, the result is mix * s1 + (1 - mix) * s2 componentwise. Each component then lies between the inputs, and weights 1 and 0 give s1 and s2. Otherwise, including a first component of exactly 0, each component is the smaller input component. |
| ContactParameters.ClampFriction | mujoco_warp/_src/collision_core.py:328-334 | Each component becomes max(MJ_MINMU, f_i): it ends at least MJ_MINMU and at least its old value, and it is either unchanged or equal to MJ_MINMU. A vector already at the floor is unchanged. |
| ContactParameters.GeomMaterial | mujoco_warp/_src/collision_core.py:273-326 | margin and gap are the sums of the two geometries' values, and solreffriction is (0, 0). friction has the shape (f0, f0, f1, f2, f2). A priority winner supplies condim, friction and solimp unmixed, and supplies solref when both solrefs are in spring-damper mode. With equal priority, condim is the larger one, friction the per-axis maximum, and solimp is mixed by the solmix weight. solref is then mix * solref1 + (1 - mix) * solref2 with that weight when both first components are > 0, and the elementwise min otherwise. |
| ContactParameters.PairMaterial | mujoco_warp/_src/collision_core.py:265-272 | Every field of an override is read from the pair tables at [worldid, pairid] with no broadcast, and condim from dim at [pairid]. |
| ContactParameters.ContactParams | mujoco_warp/_src/collision_core.py:259-336 | Returns the candidate's geometry pair. With pairid > -1, every parameter is the override row at [worldid, pairid] (dim at [pairid]) with friction clamped. Otherwise the parameters are the geometry mix with friction clamped. Every friction component ends at least MJ_MINMU. |
| ContactParameters.GeomMaterialSymmetric | mujoco_warp/_src/collision_core.py:273-326 | The mixed parameters are the same when the two geometries are swapped. |
| ContactParameters.OverrideIgnoresGeoms | mujoco_warp/_src/collision_core.py:265-272 | With an override tag, the geometry tables play no part in the result. |
| ContactCommit.Dropped | mujoco_warp/_src/collision_core.py:199-200 | A dropped contact (skip tag -2 or inactive, and no sensor) would carry neither CONSTRAINT nor SENSOR. |
| ContactCommit.Classify | mujoco_warp/_src/collision_core.py:202-208 | CONSTRAINT is set exactly when pairid[0] >= -1 and dist < margin. SENSOR is set exactly when pairid[1] >= 0. |
| ContactCommit.DroppedIffUnflagged | mujoco_warp/_src/collision_core.py:196-208 | For the tags broadphase produces, a contact is dropped exactly when it would carry neither CONSTRAINT nor SENSOR. |
| ContactCommit.SensorOnlyContact | mujoco_warp/_src/collision_core.py:199-208 | A sensor keeps a contact that is inactive or tagged -2, flagged SENSOR only. |
| ContactCommit.Commit | mujoco_warp/_src/collision_core.py:196-227 | A dropped call leaves the counter, and a kept call adds exactly 1 even past capacity. The slot written is the old counter, and only when it is below capacity. The call returns 1 exactly when the contact is active and written, and 0 otherwise. |
| ContactCommit.ContactBuffer.WriteContact | mujoco_warp/_src/collision_core.py:158-227 | The counter and return value follow Commit. Each of the thirteen arrays changes only at Commit's slot. That slot receives the call's fields, includemargin = margin - gap, the classification bits and geomcollisionid = id_. |
| ContactCommit.ContactBuffer.StoreGeometry | mujoco_warp/_src/collision_core.py:212-218 | Slot cid of dist, pos, frame, geom, worldid and includemargin receives the contact's values; the other slots are unchanged. |
| ContactCommit.ContactBuffer.StoreParams | mujoco_warp/_src/collision_core.py:219-225 | Slot cid of dim, friction, solref, solreffriction, solimp, type and geomcollisionid receives the contact's values; the other slots are unchanged. |
| ContactCommit.ContactBuffer.constructor | mujoco_warp/_src/collision_core.py:177-190 | All thirteen output arrays are fresh and hold naconmax records each, and the counter starts at 0. |
| ContactCommit.RunCounter | mujoco_warp/_src/collision_core.py:199-210 | After a sequence of calls, the counter has grown by the number of calls not dropped. |
| ContactCommit.RunSlots | mujoco_warp/_src/collision_core.py:210-211 | Starting below capacity, the slots written are exactly nacon up to min(capacity, final counter), each once and in order. |
| ContactCommit.RunFull | mujoco_warp/_src/collision_core.py:210-211 | Once the counter has reached capacity, no call writes a slot. |
| ContactCommit.Overflow | mujoco_warp/_src/collision_core.py:210-227 | naconmax + k kept contacts into an empty buffer leave the counter at naconmax + k and write exactly slots 0 to naconmax - 1. |
| CollisionContexts.CollisionContext.constructor | mujoco_warp/_src/collision_core.py:354-360 | Three fresh arrays, each of length naconmax. |
| PyCompare.SeqOp | mujoco_warp/_src/util_pkg.py:79 | Python's `==` on sequences is elementwise equality and `!=` its negation, whatever the element comparison. |
| PyCompare.SeqOpDecides | mujoco_warp/_src/util_pkg.py:71-79 | When element comparison agrees with a strict order, Python's sequence comparison answers each of the six operators as the lexicographic order dictates. |
| PyCompare.LexTransitive | mujoco_warp/_src/util_pkg.py:47-51 | The lexicographic order is transitive. |
| PyCompare.LexConnected | mujoco_warp/_src/util_pkg.py:47-51 | Two different sequences are ordered one way or the other. |
| PyCompare.LexPrefixLess | mujoco_warp/_src/util_pkg.py:51 | A proper extension comes after what it extends. |
| UtilPkg.CompOp | mujoco_warp/_src/util_pkg.py:25-28 | Comparing two (tag, value) pairs answers each of the six operators as the component order dictates: numbers by value, any number before any string, strings by code point. `==` is equality of the pairs. |
| UtilPkg.CompAgrees | mujoco_warp/_src/util_pkg.py:25-28 | Comparing (tag, value) pairs agrees with the component order for every operator. |
| UtilPkg.CompOrder | mujoco_warp/_src/util_pkg.py:25-28 | The component order is a strict total order. |
| UtilPkg.VersionOp | mujoco_warp/_src/util_pkg.py:71-79 | Each of the six operators on parsed versions answers as the lexicographic version order dictates: `<` is VersionLess(a, b), `>` is VersionLess(b, a), `<=` and `>=` add equality, `==` is equality and `!=` its negation. |
| UtilPkg.VersionTrichotomy | mujoco_warp/_src/util_pkg.py:47-51 | Exactly one of a < b, a == b and b < a holds. |
| UtilPkg.VersionLessTransitive | mujoco_warp/_src/util_pkg.py:47-51 | The version order is transitive. |
| UtilPkg.ComplementaryOperators | mujoco_warp/_src/util_pkg.py:71-79 | `>=` is the negation of `<`, `<=` the negation of `>`, and `!=` the negation of `==`. `>` is `<` swapped, and `==` is equality of the parsed tuples. |
| UtilPkg.NumbersBeforeStrings | mujoco_warp/_src/util_pkg.py:25-28 | After a common prefix, a numeric component orders before a string component, whatever follows. |
| UtilPkg.FirstDifferenceDecides | mujoco_warp/_src/util_pkg.py:47-50 | After a common prefix, the first differing components decide every ordering operator. `==` is then false and `!=` true. |
| UtilPkg.LongerIsGreater | mujoco_warp/_src/util_pkg.py:51 | A version that properly extends another compares greater and not equal. |
| UtilPkg.SplitVersion | mujoco_warp/_src/util_pkg.py:38 | The split always has at least one piece, as `re.split` never returns an empty list. Its pieces are stated by SplitPieces, SplitOfJoin and JoinOfSplit. |
| UtilPkg.SplitPieces | mujoco_warp/_src/util_pkg.py:38 | No piece of the split contains '.' or '-'. |
| UtilPkg.SplitOfJoin | mujoco_warp/_src/util_pkg.py:38 | Splitting undoes joining separator-free pieces with '.', empty pieces included. |
| UtilPkg.JoinOfSplit | mujoco_warp/_src/util_pkg.py:38 | Joining the pieces with '.' gives back the string, with every '-' written as '.'. |
| UtilPkg.SplitAppend | mujoco_warp/_src/util_pkg.py:38 | Splitting at a separator splits the two sides independently. |
| UtilPkg.TagComponent | mujoco_warp/_src/util_pkg.py:39 | A piece becomes a number exactly when it is a non-empty run of digits, and the number is its decimal value. Any other piece becomes a string holding the piece itself. |
| UtilPkg.ParseVersion | mujoco_warp/_src/util_pkg.py:22-39 | The parse has one component per piece of the split, so at least one. |
| UtilPkg.ParseVersionComponents | mujoco_warp/_src/util_pkg.py:38-39 | Component i of the parse is piece i of the split, tagged. |
| UtilPkg.ParseVersionAppend | mujoco_warp/_src/util_pkg.py:37-39 | Two strings joined by a separator parse to the concatenation of their parses. |
| UtilPkg.ParseVersionPiece | mujoco_warp/_src/util_pkg.py:39 | A separator-free piece parses to one component: (0, int) if all digits, (1, str) otherwise. |
| UtilPkg.SeparatorsInterchangeable | mujoco_warp/_src/util_pkg.py:38 | Strings that differ only in which separator they use parse alike. |
| UtilPkg.Decimal | mujoco_warp/_src/util_pkg.py:39 | Every natural number has a digit string that int reads back as that number. |
| UtilPkg.ParseRender | mujoco_warp/_src/util_pkg.py:37-39 | Every well-formed version is the parse of its written-out form. |
| UtilPkg.ParseVersionWellFormed | mujoco_warp/_src/util_pkg.py:37-39 | Every parse is well formed: string components are non-numeric and separator-free. Writing a parse out and parsing it again gives the same parse. |
| UtilPkg.NameLength | mujoco_warp/_src/util_pkg.py:63 | The package name group is the longest prefix of [a-zA-Z0-9_-] characters. |
| UtilPkg.MatchTail | mujoco_warp/_src/util_pkg.py:63 | `(.+)$` accepts a non-empty, newline-free rest, optionally followed by one final newline. It accepts every non-empty newline-free string whole. |
| UtilPkg.TryOperator | mujoco_warp/_src/util_pkg.py:63 | An accepted operator leaves a non-empty, newline-free tail. The rest is the operator's token followed by that tail, optionally followed by one final newline. |
| UtilPkg.MatchOperator | mujoco_warp/_src/util_pkg.py:63 | A matched operator is one of the alternatives, accepted by TryOperator with the tail returned. When none matches, every operator is refused. |
| UtilPkg.MatchOperatorFirst | mujoco_warp/_src/util_pkg.py:63 | The operator matched is the first in the alternation's order that TryOperator accepts: every alternative before it is refused. |
| UtilPkg.ParseSpec | mujoco_warp/_src/util_pkg.py:63-66 | A parsed spec is a non-empty name of name characters, an operator and a non-empty newline-free version. Together they spell the spec, optionally followed by a newline. |
| UtilPkg.ParseSpecComplete | mujoco_warp/_src/util_pkg.py:63-66 | Every name, operator and newline-free version spell a spec that parses. It parses back to exactly those parts unless the version starts with '='. |
| UtilPkg.ParseSpecRefuses | mujoco_warp/_src/util_pkg.py:63-65 | A spec with no name, or whose name is followed by something other than an operator character, is refused. |
| UtilPkg.GreaterThanEquals | mujoco_warp/_src/util_pkg.py:63 | A name followed by ">=" alone backtracks to the operator ">" with version "=". |
| UtilPkg.CheckVersion | mujoco_warp/_src/util_pkg.py:42-79 | An unparsable spec gives ValueError, and a missing package gives PackageNotFoundError with the name. Otherwise the result is the named operator decided by the version order on (installed, required). |
| UtilPkgExamples.ParseOneZeroZero | mujoco_warp/_src/util_pkg_test.py:30 | "1.0.0" parses to ((0,1),(0,0),(0,0)). |
| UtilPkgExamples.ParseThreeFiveZero | mujoco_warp/_src/util_pkg_test.py:31 | "3.5.0" parses to ((0,3),(0,5),(0,0)). |
| UtilPkgExamples.ParseOneTwentyZero | mujoco_warp/_src/util_pkg_test.py:32 | "1.20.0" parses to ((0,1),(0,20),(0,0)). |
| UtilPkgExamples.ParseDevRelease | mujoco_warp/_src/util_pkg_test.py:33 | "3.5.0.dev869102767" parses to three numbers and the string "dev869102767". |
| UtilPkgExamples.ParseFoobarRelease | mujoco_warp/_src/util_pkg_test.py:34 | "3.5.0-foobar" parses to three numbers and the string "foobar". |
| UtilPkgExamples.ParseAlphaRelease | mujoco_warp/_src/util_pkg_test.py:35 | "1.0.0-alpha" parses to three numbers and the string "alpha". |
| UtilPkgExamples.ParseBetaRelease | mujoco_warp/_src/util_pkg_test.py:36 | "2.0.0-beta.1" parses to ((0,2),(0,0),(0,0),(1,"beta"),(0,1)). |
| UtilPkgExamples.CheckAtLeastSame | mujoco_warp/_src/util_pkg_test.py:47 | "pkg>=1.0.0" with 1.0.0 installed is satisfied. |
| UtilPkgExamples.CheckAtLeastPatch | mujoco_warp/_src/util_pkg_test.py:48 | "pkg>=1.0.0" with 1.0.1 installed is satisfied. |
| UtilPkgExamples.CheckAtLeastMajor | mujoco_warp/_src/util_pkg_test.py:49 | "pkg>=1.0.0" with 2.0.0 installed is satisfied. |
| UtilPkgExamples.CheckAtLeastOlder | mujoco_warp/_src/util_pkg_test.py:50 | "pkg>=1.0.0" with 0.9.0 installed is not satisfied. |
| UtilPkgExamples.CheckAtMostSame | mujoco_warp/_src/util_pkg_test.py:52 | "pkg<=1.0.0" with 1.0.0 installed is satisfied. |
| UtilPkgExamples.CheckAtMostOlder | mujoco_warp/_src/util_pkg_test.py:53 | "pkg<=1.0.0" with 0.9.0 installed is satisfied. |
| UtilPkgExamples.CheckAtMostPatch | mujoco_warp/_src/util_pkg_test.py:54 | "pkg<=1.0.0" with 1.0.1 installed is not satisfied. |
| UtilPkgExamples.CheckAbovePatch | mujoco_warp/_src/util_pkg_test.py:56 | "pkg>1.0.0" with 1.0.1 installed is satisfied. |
| UtilPkgExamples.CheckAboveSame | mujoco_warp/_src/util_pkg_test.py:57 | "pkg>1.0.0" with 1.0.0 installed is not satisfied. |
| UtilPkgExamples.CheckBelowOlder | mujoco_warp/_src/util_pkg_test.py:59 | "pkg<1.0.0" with 0.9.0 installed is satisfied. |
| UtilPkgExamples.CheckBelowSame | mujoco_warp/_src/util_pkg_test.py:60 | "pkg<1.0.0" with 1.0.0 installed is not satisfied. |
| UtilPkgExamples.CheckEqualSame | mujoco_warp/_src/util_pkg_test.py:62 | "pkg==1.0.0" with 1.0.0 installed is satisfied. |
| UtilPkgExamples.CheckEqualPatch | mujoco_warp/_src/util_pkg_test.py:63 | "pkg==1.0.0" with 1.0.1 installed is not satisfied. |
| UtilPkgExamples.CheckNotEqualPatch | mujoco_warp/_src/util_pkg_test.py:65 | "pkg!=1.0.0" with 1.0.1 installed is satisfied. |
| UtilPkgExamples.CheckNotEqualSame | mujoco_warp/_src/util_pkg_test.py:66 | "pkg!=1.0.0" with 1.0.0 installed is not satisfied. |
| UtilPkgExamples.CheckAtLeastDev | mujoco_warp/_src/util_pkg_test.py:68 | "pkg>=3.5.0" with 3.5.0.dev869102767 installed is satisfied. |
| UtilPkgExamples.CheckAtLeastFoobar | mujoco_warp/_src/util_pkg_test.py:69 | "pkg>=3.5.0" with 3.5.0-foobar installed is satisfied. |
| UtilPkgExamples.CheckAboveDev | mujoco_warp/_src/util_pkg_test.py:70 | "pkg>3.5.0" with 3.5.0.dev869102767 installed is satisfied. |
| UtilPkgExamples.CheckAtLeastSameFoobar | mujoco_warp/_src/util_pkg_test.py:72 | "pkg>=3.5.0-foobar" with 3.5.0-foobar installed is satisfied. |
| UtilPkgExamples.FoobarAfterDev | mujoco_warp/_src/util_pkg_test.py:71-73 | At the same release, the word "foobar" orders after "dev869102767". |
| UtilPkgExamples.CheckFoobarAboveDev | mujoco_warp/_src/util_pkg_test.py:73 | "pkg>3.5.0.dev869102767" with 3.5.0-foobar installed is satisfied. |
| UtilPkgExamples.InvalidSpecs | mujoco_warp/_src/util_pkg_test.py:79-87 | "numpy", ">=1.0.0" and "" are refused. |
| UtilPkgExamples.UnknownOperator | mujoco_warp/_src/util_pkg_test.py:82 | "numpy~=1.0.0" is refused. |
| UtilPkgExamples.MissingPackage | mujoco_warp/_src/util_pkg_test.py:89-98 | "nonexistent>=1.0.0" with nothing installed reports PackageNotFoundError for "nonexistent". |

## Left out

- Concurrency: the `wp.atomic_add` on the counter is modelled as a plain increment, with calls one after another. Arrival order across threads and memory ordering are not modelled.
- ContactCommit.Commit: the counter `nacon` is a `nat`, while the source keeps it in a Warp int32 array. After 2^31 - 1 kept contacts, `wp.atomic_add` (`mujoco_warp/_src/collision_core.py:210`) wraps the counter to -2^31. A negative slot then passes `cid < naconmax` (:211), and the kernel writes out of range. The model's counter grows without bound and never writes out of range. So `Overflow`, `RunCounter` and `RunSlots` describe the source only while the final counter stays below 2^31. Its activity test `dist < margin` is also over `real`, as the next line says.
- ContactCommit.ContactBuffer.WriteContact: `dist`, `margin` and `gap` are modelled as `real`, not as Warp floats. The activity test `dist < margin` and `includemargin = margin - gap` (`mujoco_warp/_src/collision_core.py:196`, :217) are therefore exact and have no NaN. In the source a NaN `dist` is inactive, so it is dropped unless a sensor keeps it.
- Floating point: `contact_params` is modelled over `real`, so rounding is not captured. `safe_div` is used only when both solmix values are at least `MJ_MINVAL`, so its denominator is positive and it is plain division.
- Constants from `types.py`, which is not part of this model:
  - `MJ_MINVAL` and `MJ_MINMU` are positive parameters.
  - `ContactType.CONSTRAINT` and `SENSOR` are two independent booleans standing for two distinct bits.
  - `GeomType` is reduced to mesh or not.
- Views and arrays:
  - The whole-table array references stored into a `Geom` view (vertices, graph, polygon tables) and `hfprism` are not modelled.
  - A non-mesh view's mesh fields hold the struct default 0.
- GeomViews.GeomView: `wp.where` in the source evaluates both of its arms, so with dataid -1 it still reads `mesh_vertadr[-1]` (and the other four tables) before discarding the value. In a Warp kernel that index is out of range, not a wrap to the last entry. The model reads the tables only when dataid >= 0.
- CollisionContexts.CollisionContext.constructor: the contents of `wp.empty` are uninitialised in the source. The model allocates default-filled arrays and states only their lengths.
- Override indexing: the override branch of `contact_params` indexes the pair tables at [worldid, pairid] directly, with no modulo (`mujoco_warp/_src/collision_core.py:266-272`). The model does the same and requires worldid to be a row of those tables. Only the geometry tables use the `worldid % rows` broadcast.
- UtilPkg.CheckVersion: gives ValueError only when the spec does not match the pattern. For a spec the pattern accepts, the source also raises ValueError from `int` in `_parse_version` (`mujoco_warp/_src/util_pkg.py:39`, reached at :68-69). That happens for a piece of more than 4300 digits, or for a piece of Unicode digits that `int` refuses (such as `'²'`), in the required or the installed version. In those cases the model returns a comparison result.
- `importlib.metadata.version` is a foreign lookup. `CheckVersion` takes it as a parameter that returns None when the package is not installed.
- UtilPkg.TagComponent: does not model CPython's limit on decimal conversion. `int` raises ValueError on a digit string longer than 4300 digits (the default of `sys.get_int_max_str_digits()`), so `_parse_version` raises on such a piece. The model reads any all-digit piece, however long, as a number.
- UtilPkg.TagComponent: treats only ASCII `0`-`9` as digits. Python's `str.isdigit` also accepts other Unicode digits, and for some of them `int` raises ValueError: `'²'.isdigit()` is true, but `int('²')` fails. For a version with such a piece, `_parse_version` and `check_version` raise ValueError, while the model tags the piece as a string and returns a result. Other scripts' decimal digits (such as `'٣'`) give Python a number where the model gives a string.
- UtilPkg.ParseSpecComplete: covers versions without a newline. A version followed by one final newline is accepted by `MatchTail`, but no completeness lemma states it.
- `mujoco_warp/_src/passive.py` is not part of this model: it is numeric force kernels launched over Warp grids.
