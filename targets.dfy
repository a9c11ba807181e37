/** Build targets: the fixed target lists, the platform tests and the defaulting of a requested list. */
module Targets {
  import opened Strings

  /** The Android targets used by the Android Gradle plugin, unit-test targets excluded. */
  const AllAndroidTargets: seq<string> := [
    "armv7-linux-androideabi",
    "aarch64-linux-android",
    "i686-linux-android",
    "x86_64-linux-android"
  ]

  const AllIosTargets: seq<string> := ["x86_64-apple-ios", "aarch64-apple-ios"]

  /** Every target the project builds for, unit-test bundles included. */
  const AllTargets: seq<string> := AllAndroidTargets + AllIosTargets + [
    "x86_64-unknown-linux-gnu",
    "x86_64-apple-darwin",
    "x86_64-pc-windows-msvc",
    "x86_64-pc-windows-gnu"
  ]

  predicate TargetIsAndroid(target: string) {
    EndsWith(target, "-android") || EndsWith(target, "-androideabi")
  }

  predicate TargetIsIos(target: string) {
    EndsWith(target, "-ios")
  }

  /** The Android targets classify as Android and not as iOS. */
  lemma AndroidTargetsClassified()
    ensures forall t :: t in AllAndroidTargets ==> TargetIsAndroid(t) && !TargetIsIos(t)
  {
  }

  /** The iOS targets classify as iOS and not as Android. */
  lemma IosTargetsClassified()
    ensures forall t :: t in AllIosTargets ==> TargetIsIos(t) && !TargetIsAndroid(t)
  {
  }

  /** The desktop targets at the end of `AllTargets` classify as neither. */
  lemma DesktopTargetsClassified()
    ensures forall t :: t in AllTargets[|AllAndroidTargets| + |AllIosTargets|..] ==> !TargetIsIos(t) && !TargetIsAndroid(t)
  {
  }

  /** The `targets` argument: `None`, a single string, or a list. */
  datatype TargetSelection = Unspecified | Single(target: string) | Several(targets: seq<string>)

  /** `if not targets: targets = ALL_TARGETS; elif isinstance(targets, str): targets = (targets,)`. */
  function RequestedTargets(selection: TargetSelection): (r: seq<string>)
    ensures selection.Unspecified? || selection == Single("") || selection == Several([]) ==> r == AllTargets
    ensures selection.Single? && selection.target != "" ==> r == [selection.target]
    ensures selection.Several? && selection.targets != [] ==> r == selection.targets
    ensures r != []
    ensures forall t :: t in r ==>
      || t in AllTargets
      || (selection.Single? && t == selection.target)
      || (selection.Several? && t in selection.targets)
  {
    match selection
    case Unspecified => AllTargets
    case Single(t) => if t == "" then AllTargets else [t]
    case Several(ts) => if ts == [] then AllTargets else ts
  }

  /** `a` is `b` with some elements left out, order kept. */
  predicate IsSubsequence(a: seq<string>, b: seq<string>)
    decreases |b|
  {
    if a == [] then true
    else if b == [] then false
    else if a[0] == b[0] then IsSubsequence(a[1..], b[1..])
    else IsSubsequence(a, b[1..])
  }

  /** `[target for target in targets if not target_is_ios(target)]`. */
  function WithoutIos(targets: seq<string>): (r: seq<string>)
    ensures forall t :: t in r <==> t in targets && !TargetIsIos(t)
    ensures IsSubsequence(r, targets)
  {
    if targets == [] then []
    else if TargetIsIos(targets[0]) then WithoutIos(targets[1..])
    else [targets[0]] + WithoutIos(targets[1..])
  }

  lemma WithoutIosIdempotent(targets: seq<string>)
    ensures WithoutIos(WithoutIos(targets)) == WithoutIos(targets)
  {
  }
}
