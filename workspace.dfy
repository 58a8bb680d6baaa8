/** The two-slot workspace of the application window (interfaz.py, class PDIApp).

    Each of the two slots holds an original image, the processed image shown
    beside it and an undo history of earlier processed images. One slot is
    active: filters, undo and reset act on it. The view mode says which slot
    is displayed (1, 2, or 3 for both side by side). Widgets, dialogs and
    rendering are not modelled; what a dialog returns is an argument. */
module Workspace {
  import opened Raster

  /** One entry of `data`: orig, proc and hist. */
  datatype Slot = Slot(orig: Option<Image>, proc: Option<Image>, hist: seq<Image>)

  function EmptySlot(): Slot
  {
    Slot(None, None, [])
  }

  /** A slot holds a processed image exactly when it holds an original, and
      an empty slot has no history. */
  predicate SlotOk(s: Slot)
  {
    (s.orig.Some? <==> s.proc.Some?) && (s.orig.None? ==> s.hist == [])
  }

  function Other(slot: int): int
  {
    if slot == 2 then 1 else 2
  }

  class App {
    var data: map<int, Slot>
    var active: int
    var viewMode: int

    predicate Valid()
      reads this
    {
      data.Keys == {1, 2} && (active == 1 || active == 2) && 1 <= viewMode <= 3 &&
      SlotOk(data[1]) && SlotOk(data[2])
    }

    /** Both slots empty, slot 1 active and viewed. */
    constructor()
      ensures Valid()
      ensures data == map[1 := EmptySlot(), 2 := EmptySlot()] && active == 1 && viewMode == 1
    {
      data := map[1 := EmptySlot(), 2 := EmptySlot()];
      active := 1;
      viewMode := 1;
    }

    /** actualizar_estado_switch: when exactly one slot is loaded it becomes
        the active one; otherwise the active slot stays. */
    method ActualizarEstadoSwitch()
      requires Valid()
      modifies this
      ensures Valid()
      ensures data == old(data) && viewMode == old(viewMode)
      ensures var has1, has2 := data[1].orig.Some?, data[2].orig.Some?;
        active == (if has1 && !has2 then 1 else if !has1 && has2 then 2 else old(active))
    {
      var has1 := data[1].orig.Some?;
      var has2 := data[2].orig.Some?;
      if has1 && !has2 {
        active := 1;
      } else if !has1 && has2 {
        active := 2;
      }
    }

    /** cargar_imagen: `file` is what the file dialog and the reader return;
        None (the dialog was cancelled) changes nothing. A loaded image
        becomes the original and the processed image of the slot, with an
        empty history, and the slot becomes active; it is also viewed when
        the other slot is empty. */
    method Cargar(slot: int, file: Option<Image>)
      requires Valid() && (slot == 1 || slot == 2)
      modifies this
      ensures Valid()
      ensures file.None? ==> data == old(data) && active == old(active) && viewMode == old(viewMode)
      ensures file.Some? ==> data == old(data)[slot := Slot(file, file, [])] && active == slot
      ensures file.Some? ==> viewMode == (if old(data)[Other(slot)].orig.None? then slot else old(viewMode))
    {
      if file.None? {
        return;
      }
      data := data[slot := Slot(file, file, [])];
      var has1 := data[1].orig.Some?;
      var has2 := data[2].orig.Some?;
      if slot == 1 {
        active := 1;
        if !has2 {
          viewMode := 1;
        }
      } else {
        active := 2;
        if !has1 {
          viewMode := 2;
        }
      }
      ActualizarEstadoSwitch();
    }

    /** borrar_imagen: deleting an empty slot changes nothing. Otherwise the
        slot is emptied; if the other slot is loaded it becomes active and
        viewed, else view 1 is shown and the active slot stays. */
    method Borrar(slot: int)
      requires Valid() && (slot == 1 || slot == 2)
      modifies this
      ensures Valid()
      ensures old(data)[slot].orig.None? ==> data == old(data) && active == old(active) && viewMode == old(viewMode)
      ensures old(data)[slot].orig.Some? ==> data == old(data)[slot := EmptySlot()]
      ensures old(data)[slot].orig.Some? && old(data)[Other(slot)].orig.Some? ==>
        active == Other(slot) && viewMode == Other(slot)
      ensures old(data)[slot].orig.Some? && old(data)[Other(slot)].orig.None? ==>
        active == old(active) && viewMode == 1
    {
      if data[slot].orig.None? {
        return;
      }
      data := data[slot := EmptySlot()];
      var other := Other(slot);
      if data[other].orig.Some? {
        active := other;
        viewMode := other;
      } else {
        viewMode := 1;
      }
      ActualizarEstadoSwitch();
    }

    /** aplicar_filtro: on the active slot, if it is loaded, the processed
        image is pushed on the history and replaced by f of it. A transform
        that fails (Err, an exception in the source) has its history entry
        popped again, so nothing changes. The other slot is untouched. */
    method AplicarFiltro(f: Image -> Result<Image>)
      requires Valid()
      modifies this
      ensures Valid()
      ensures active == old(active) && viewMode == old(viewMode)
      ensures var s := old(data)[active];
        s.orig.None? ==> data == old(data)
      ensures var s := old(data)[active];
        s.orig.Some? && f(s.proc.value).Err? ==> data == old(data)
      ensures var s := old(data)[active];
        s.orig.Some? && f(s.proc.value).Ok? ==>
          data == old(data)[active := Slot(s.orig, Some(f(s.proc.value).value), s.hist + [s.proc.value])]
    {
      var slot := active;
      var s := data[slot];
      if s.orig.None? {
        return;
      }
      var current := s.proc.value;
      data := data[slot := s.(hist := s.hist + [current])];
      var res := f(data[slot].proc.value);
      if res.Ok? {
        data := data[slot := data[slot].(proc := Some(res.value))];
      } else {
        var h := data[slot].hist;
        if h != [] {
          data := data[slot := data[slot].(hist := h[..|h| - 1])];
        }
      }
    }

    /** deshacer: with an empty history nothing changes; otherwise the last
        history entry is popped and becomes the processed image. */
    method Deshacer()
      requires Valid()
      modifies this
      ensures Valid()
      ensures active == old(active) && viewMode == old(viewMode)
      ensures old(data)[active].hist == [] ==> data == old(data)
      ensures var s := old(data)[active];
        s.hist != [] ==> data == old(data)[active := Slot(s.orig, Some(s.hist[|s.hist| - 1]), s.hist[..|s.hist| - 1])]
    {
      var slot := active;
      var h := data[slot].hist;
      if h == [] {
        return;
      }
      var prev := h[|h| - 1];
      data := data[slot := data[slot].(hist := h[..|h| - 1])];
      data := data[slot := data[slot].(proc := Some(prev))];
    }

    /** reset_imagen: on a loaded active slot, the processed image is pushed
        on the history and replaced by the original. */
    method ResetImagen()
      requires Valid()
      modifies this
      ensures Valid()
      ensures active == old(active) && viewMode == old(viewMode)
      ensures old(data)[active].orig.None? ==> data == old(data)
      ensures var s := old(data)[active];
        s.orig.Some? ==> data == old(data)[active := Slot(s.orig, s.orig, s.hist + [s.proc.value])]
    {
      var slot := active;
      if data[slot].orig.None? {
        return;
      }
      data := data[slot := data[slot].(hist := data[slot].hist + [data[slot].proc.value])];
      data := data[slot := data[slot].(proc := data[slot].orig)];
    }

    /** operacion_dual: with both slots loaded and the dialog confirmed, g
        is applied to the active slot with the other slot's processed image
        as its second operand; otherwise nothing changes. */
    method OperacionDual(g: (Image, Image) -> Result<Image>, confirm: bool)
      requires Valid()
      modifies this
      ensures Valid()
      ensures active == old(active) && viewMode == old(viewMode)
      ensures old(data)[1].orig.None? || old(data)[2].orig.None? || !confirm ==> data == old(data)
      ensures var s, sec := old(data)[active], old(data)[Other(active)];
        s.orig.Some? && sec.orig.Some? && confirm && g(s.proc.value, sec.proc.value).Err? ==> data == old(data)
      ensures var s, sec := old(data)[active], old(data)[Other(active)];
        s.orig.Some? && sec.orig.Some? && confirm && g(s.proc.value, sec.proc.value).Ok? ==>
          data == old(data)[active := Slot(s.orig, Some(g(s.proc.value, sec.proc.value).value), s.hist + [s.proc.value])]
    {
      if data[1].orig.None? || data[2].orig.None? {
        return;
      }
      var secundario := Other(active);
      if confirm {
        var second := data[secundario].proc.value;
        AplicarFiltro(x => g(x, second));
      }
    }
  }

  /** Undo right after a successful apply restores the slot exactly. */
  method ApplyThenUndo(app: App, f: Image -> Result<Image>)
    requires app.Valid()
    modifies app
    ensures app.Valid()
    ensures var s := old(app.data)[old(app.active)];
      s.orig.Some? && f(s.proc.value).Ok? ==> app.data == old(app.data)
    ensures app.active == old(app.active) && app.viewMode == old(app.viewMode)
  {
    app.AplicarFiltro(f);
    app.Deshacer();
  }

  /** Undo right after a reset restores the slot exactly, loaded or not. */
  method ResetThenUndo(app: App)
    requires app.Valid()
    modifies app
    ensures app.Valid()
    ensures app.data == old(app.data)
    ensures app.active == old(app.active) && app.viewMode == old(app.viewMode)
  {
    app.ResetImagen();
    app.Deshacer();
  }

  /** Loading into a slot and then deleting it leaves that slot empty and the other one as it was. */
  method LoadThenDelete(app: App, slot: int, img: Image)
    requires app.Valid() && (slot == 1 || slot == 2)
    modifies app
    ensures app.Valid()
    ensures app.data == old(app.data)[slot := EmptySlot()]
  {
    app.Cargar(slot, Some(img));
    app.Borrar(slot);
  }
}
