/** The image loading hint (js/main.js, lines 181-186): every img without a
    `loading` attribute gets loading="lazy". */
module ImageHints {
  import opened Wrappers

  const Lazy: string := "lazy"

  /** `loading[i]` is the i-th image's loading attribute, None when absent.
      Afterwards every image declares a strategy, an image that already
      declared one keeps it, and the others say "lazy". */
  method AddLazyLoading(loading: array<Option<string>>)
    modifies loading
    ensures forall i :: 0 <= i < loading.Length ==>
              loading[i] == if old(loading[i]).None? then Some(Lazy) else old(loading[i])
  {
    for i := 0 to loading.Length
      invariant forall k :: 0 <= k < i ==>
                  loading[k] == if old(loading[k]).None? then Some(Lazy) else old(loading[k])
      invariant forall k :: i <= k < loading.Length ==> loading[k] == old(loading[k])
    {
      if loading[i].None? {
        loading[i] := Some(Lazy);
      }
    }
  }
}
