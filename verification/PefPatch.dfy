/** Patching the words of a section image in place. */
module PefPatch {
  import opened Bytes
  import opened PefCode
  import opened PefTrace

  method PatchWord(buf: array<byte>, p: nat, v: u32)
    requires p + 4 <= buf.Length
    modifies buf
    ensures buf[..] == PatchOne(old(buf[..]), p, v)
  {
    var w := Read32(buf, p);
    Write32(buf, p, Add32(w, v));
  }

  /** Patch the words of one item at `p`, the one after the patches `fs`. */
  method PatchItem(buf: array<byte>, env: Bases, k: Kind, p: nat, imp: nat, ghost was: seq<byte>, ghost fs: seq<Fixup>)
    requires Within(ItemFixes(k, p, imp), buf.Length)
    requires Resolves(env, ItemFixes(k, p, imp))
    requires buf[..] == Patch(env, was, fs)
    modifies buf
    ensures buf[..] == Patch(env, was, fs + ItemFixes(k, p, imp))
  {
    ghost var item := ItemFixes(k, p, imp);
    PatchAppend(env, was, fs, item);
    PatchItemSteps(env, buf[..], item);
    hide Patch, PatchOne;
    assert env.Has(item[0].base) && item[0].pos + 4 <= buf.Length;
    match k {
      case BySectC => PatchWord(buf, p, env.sec[0]);
      case BySectD | VTable8 => PatchWord(buf, p, env.sec[1]);
      case TVector12 | TVector8 =>
        assert env.Has(item[1].base) && item[1].pos + 4 <= buf.Length;
        PatchWord(buf, p, env.sec[0]);
        PatchWord(buf, p + 4, env.sec[1]);
      case ImportRun => PatchWord(buf, p, env.imp[imp]);
    }
  }

  lemma {:induction false} ItemResolves(env: Bases, k: Kind, pos: nat, imp: nat, i: nat, n: nat)
    requires i < n && Resolves(env, RunFixes(k, pos, imp, n))
    ensures Resolves(env, ItemFixes(k, pos + Offset(k, i), imp + i))
  {
    RunFixesPrefix(k, pos, imp, i + 1, n);
    var fs, item := RunFixes(k, pos, imp, i), ItemFixes(k, pos + Offset(k, i), imp + i);
    MiddleResolves(env, fs, item, RunFixes(k, pos, imp, n));
  }

  lemma {:induction false} PatchItemSteps(env: Bases, b: seq<byte>, item: seq<Fixup>)
    requires 1 <= |item| <= 2
    ensures var one := PatchOne(b, item[0].pos, env.Value(item[0].base));
      Patch(env, b, item) == if |item| == 1 then one else PatchOne(one, item[1].pos, env.Value(item[1].base))
  {
    assert item[..1][..0] == [];
    assert Patch(env, b, item[..0]) == b;
    assert Patch(env, b, item[..1]) == PatchOne(b, item[0].pos, env.Value(item[0].base));
    if |item| == 1 {
      assert item[..1] == item;
    }
  }

  lemma {:induction false} OnePatch(env: Bases, b: seq<byte>, f: Fixup)
    ensures Patch(env, b, [f]) == PatchOne(b, f.pos, env.Value(f.base))
  {
    assert [f][..0] == [];
    assert Patch(env, b, [f][..0]) == b;
  }
}
