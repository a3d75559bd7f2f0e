/** The overlapping copy of util.c. */
module MemMove {
  import opened TraceRecords

  lemma Moved(was: seq<byte>, now: seq<byte>, dest: nat, src: nat, n: nat)
    requires |now| == |was| && dest + n <= |was| && src + n <= |was|
    requires forall j :: dest <= j < dest + n ==> now[j] == was[src + (j - dest)]
    requires forall j :: (0 <= j < dest || dest + n <= j < |was|) ==> now[j] == was[j]
    ensures now == was[..dest] + was[src..src + n] + was[dest + n..]
  {
  }

  /** Copies n bytes from src to dest within one buffer; the regions may overlap. */
  method Move(mem: array<byte>, dest: nat, src: nat, n: nat)
    requires dest + n <= mem.Length && src + n <= mem.Length
    modifies mem
    ensures mem[..] == old(mem[..])[..dest] + old(mem[..])[src..src + n] + old(mem[..])[dest + n..]
  {
    var d, s, left := dest, src, n;
    if src > dest {
      while left != 0
        invariant 0 <= left <= n && d == dest + (n - left) && s == src + (n - left)
        invariant forall j :: dest <= j < d ==> mem[j] == old(mem[src + (j - dest)])
        invariant forall j :: (0 <= j < dest || d <= j < mem.Length) ==> mem[j] == old(mem[j])
        decreases left
      {
        left := left - 1;
        mem[d] := mem[s];
        d, s := d + 1, s + 1;
      }
    } else if src < dest {
      d, s := d + n, s + n;
      while left != 0
        invariant 0 <= left <= n && d == dest + left && s == src + left
        invariant forall j :: d <= j < dest + n ==> mem[j] == old(mem[src + (j - dest)])
        invariant forall j :: (0 <= j < d || dest + n <= j < mem.Length) ==> mem[j] == old(mem[j])
        decreases left
      {
        left, d, s := left - 1, d - 1, s - 1;
        mem[d] := mem[s];
      }
    }
    Moved(old(mem[..]), mem[..], dest, src, n);
  }
}
