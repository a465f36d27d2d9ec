/**
 * The intersection record (`hittable/HitRecord.java`) and its orientation
 * rule: the stored normal always faces against the incoming ray.
 */
module HitRecords {
  import opened RealMath
  import opened Vectors
  import opened Rays
  import opened Materials

  /** The five public fields of a record, all set by every successful `hit`. */
  datatype HitRecord = HitRecord(p: Vec3, normal: Vec3, t: real, material: Material, frontFace: bool)

  /**
   * `setFaceNormal(r, outwardNormal)`: the ray hits the front face when it
   * travels against the outward normal; the stored normal is flipped when it
   * does not, so it always opposes the ray.
   */
  function SetFaceNormal(rec: HitRecord, r: Ray, outwardNormal: Vec3): (rec': HitRecord)
    ensures rec'.frontFace <==> Dot(r.direction, outwardNormal) < 0.0
    ensures rec'.frontFace ==> rec'.normal == outwardNormal
    ensures !rec'.frontFace ==> Add(rec'.normal, outwardNormal) == Zero
    ensures Dot(r.direction, rec'.normal) <= 0.0
    ensures LengthSquared(rec'.normal) == LengthSquared(outwardNormal)
    ensures rec'.p == rec.p && rec'.t == rec.t && rec'.material == rec.material
  {
    var front := Dot(r.direction, outwardNormal) < 0.0;
    var normal := if front then outwardNormal else Scale(outwardNormal, -1.0);
    Negated(r.direction, outwardNormal);
    rec.(normal := normal, frontFace := front)
  }

  /**
   * Unless the ray grazes the surface, the stored normal already opposes the
   * ray: orienting again with it keeps it and reports a front face.
   */
  lemma SetFaceNormalReorient(rec: HitRecord, r: Ray, outwardNormal: Vec3)
    requires Dot(r.direction, outwardNormal) != 0.0
    ensures var rec' := SetFaceNormal(rec, r, outwardNormal);
      SetFaceNormal(rec', r, rec'.normal) == rec'.(frontFace := true)
  {
    Negated(r.direction, outwardNormal);
  }

  /**
   * What every successful `hit` leaves in the record: the parameter, the
   * point at that parameter, the normal oriented by `setFaceNormal` and the
   * material. All five fields are overwritten, so the record's earlier
   * contents never show through.
   */
  function Record(r: Ray, t: real, outwardNormal: Vec3, material: Material): (rec: HitRecord)
    ensures rec.t == t && rec.p == At(r, t) && rec.material == material
    ensures rec.frontFace <==> Dot(r.direction, outwardNormal) < 0.0
    ensures Dot(r.direction, rec.normal) <= 0.0
    ensures LengthSquared(rec.normal) == LengthSquared(outwardNormal)
  {
    SetFaceNormal(HitRecord(At(r, t), outwardNormal, t, material, false), r, outwardNormal)
  }
}
