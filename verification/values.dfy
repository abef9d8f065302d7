/** Runtime values. Strings stand for their bytes; floats are not part of this model. */
module Values {
  import opened Core

  datatype Value =
    | Nil
    | Bool(b: bool)
    | Num(n: int)
    | Str(s: bytes)
    | Table(t: nat)
    | Func(f: nat)
    | Closure(c: nat)
    | Native(k: nat)
    | Co(co: nat)
    | Wrapped(w: nat)
    | Gmatch(g: nat)
    | IoLines(h: nat)
    | Shell | Dhcp | Exit | Ls
}
