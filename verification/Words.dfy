/** Words, optional values, and word-addressed memory shared by the port modules. */
module Words {

  datatype Option<+T> = None | Some(value: T)

  /** A 32-bit word as the port handles it: copied between registers and memory, and, for a stack
      pointer, stepped by whole words. */
  type Word = int

  /** Memory as the words written to it; a word never written reads as zero. Addresses count words:
      address a stands for the four bytes from 4 * a, which is all a stack pointer can name because
      its two lowest bits are always zero. */
  type Memory = map<int, Word>

  /** One past the largest word address of a 32-bit address space. */
  const ADDRESS_LIMIT := 0x4000_0000

  function Read(m: Memory, a: int): Word {
    if a in m then m[a] else 0
  }

  function Store(m: Memory, a: int, ws: seq<Word>): Memory
    decreases |ws|
  {
    if ws == [] then m else Store(m[a := ws[0]], a + 1, ws[1..])
  }

  function Load(m: Memory, a: int, n: nat): (ws: seq<Word>)
    ensures |ws| == n
    ensures forall i {:trigger ws[i]} :: 0 <= i < n ==> ws[i] == Read(m, a + i)
  {
    seq(n, i => Read(m, a + i))
  }

  /** A store changes the words of its block and no others. */
  lemma {:induction false} ReadStored(m: Memory, a: int, ws: seq<Word>, x: int)
    ensures Read(Store(m, a, ws), x) == if a <= x < a + |ws| then ws[x - a] else Read(m, x)
    decreases |ws|
  {
    if ws != [] {
      ReadStored(m[a := ws[0]], a + 1, ws[1..], x);
    }
  }

  lemma LoadStored(m: Memory, a: int, ws: seq<Word>)
    ensures Load(Store(m, a, ws), a, |ws|) == ws
  {
    forall i | 0 <= i < |ws|
      ensures Load(Store(m, a, ws), a, |ws|)[i] == ws[i]
    {
      ReadStored(m, a, ws, a + i);
    }
  }

  /** Two memories that agree on a stretch load the same words from it. */
  lemma LoadAgrees(m: Memory, m': Memory, a: int, n: nat)
    requires forall x :: a <= x < a + n ==> Read(m, x) == Read(m', x)
    ensures Load(m, a, n) == Load(m', a, n)
  {
  }
}
