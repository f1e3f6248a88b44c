/** The two bone-renaming passes: every bone name of the armatures, held
    here as one array of names, is rewritten in place. For each bone the
    pairs are tried in table order; the name is split afresh for each pair,
    and the first match assigns the new name and leaves the pair loop. */
module BoneRename {
  import opened PyStr
  import opened BoneNames

  /** `convert_lr_en_to_jp`: each name becomes its en→jp conversion, and
      nothing else in the array changes. */
  method ConvertLrEnToJp(bones: array<string>)
    modifies bones
    ensures forall k :: 0 <= k < bones.Length ==> bones[k] == EnToJp(old(bones[k]))
  {
    var i := 0;
    while i < bones.Length
      invariant 0 <= i <= bones.Length
      invariant forall k :: 0 <= k < i ==> bones[k] == EnToJp(old(bones[k]))
      invariant forall k :: i <= k < bones.Length ==> bones[k] == old(bones[k])
    {
      EnToJpBone(bones, i);
      i := i + 1;
    }
  }

  /** The pair loop of `convert_lr_en_to_jp` for the bone at `i`: the first
      pair whose suffix ends the stem renames it, then the loop is left. */
  method EnToJpBone(bones: array<string>, i: nat)
    requires i < bones.Length
    modifies bones
    ensures bones[i] == EnToJp(old(bones[i]))
    ensures forall k :: 0 <= k < bones.Length && k != i ==> bones[k] == old(bones[k])
  {
    ghost var name := bones[i];
    var j := 0;
    while j < |TargetPairs|
      invariant 0 <= j <= |TargetPairs|
      invariant forall k :: 0 <= k < bones.Length ==> bones[k] == old(bones[k])
      invariant EnToJpFrom(name, j) == EnToJp(name)
    {
      var t := TargetPairs[j];
      var (stem, num) := SplitExtractNumber(bones[i]);
      if EndsWith(stem, t.en) {
        bones[i] := t.jp + RStrip(stem, t.en) + num;
        break;
      }
      j := j + 1;
    }
  }

  /** `convert_lr_jp_to_en`: each name becomes its jp→en conversion, and
      nothing else in the array changes. */
  method ConvertLrJpToEn(bones: array<string>)
    modifies bones
    ensures forall k :: 0 <= k < bones.Length ==> bones[k] == JpToEn(old(bones[k]))
  {
    var i := 0;
    while i < bones.Length
      invariant 0 <= i <= bones.Length
      invariant forall k :: 0 <= k < i ==> bones[k] == JpToEn(old(bones[k]))
      invariant forall k :: i <= k < bones.Length ==> bones[k] == old(bones[k])
    {
      JpToEnBone(bones, i);
      i := i + 1;
    }
  }

  /** The pair loop of `convert_lr_jp_to_en` for the bone at `i`. */
  method JpToEnBone(bones: array<string>, i: nat)
    requires i < bones.Length
    modifies bones
    ensures bones[i] == JpToEn(old(bones[i]))
    ensures forall k :: 0 <= k < bones.Length && k != i ==> bones[k] == old(bones[k])
  {
    ghost var name := bones[i];
    var j := 0;
    while j < |TargetPairs|
      invariant 0 <= j <= |TargetPairs|
      invariant forall k :: 0 <= k < bones.Length ==> bones[k] == old(bones[k])
      invariant JpToEnFrom(name, j) == JpToEn(name)
    {
      var t := TargetPairs[j];
      var (stem, num) := SplitExtractNumber(bones[i]);
      if StartsWith(stem, t.jp) {
        bones[i] := LStrip(stem, t.jp) + t.en + num;
        break;
      }
      j := j + 1;
    }
  }
}
