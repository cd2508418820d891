/** What the enemy missiles aim at: the cities (`class City`) and the
    player's base (`class Base`). */
module Defenses {
  import opened Geometry

  /** A city is 200 wide and 100 high (`super(x, y, 200, 100, ...)`). */
  const CityWidth := 200.0
  const CityHeight := 100.0
  const CitySprite := "resources/city_1.png"
  const RuinsSprite := "resources/ruins_1.png"

  class City {
    const x: real
    const y: real
    var isDestroyed: bool
    var sprite: string

    constructor (x: real, y: real)
      ensures this.x == x && this.y == y
      ensures !isDestroyed && sprite == CitySprite
    {
      this.x, this.y := x, y;
      isDestroyed := false;
      sprite := CitySprite;
    }

    /** `destroy()`: the city is in ruins. */
    method Destroy()
      modifies this
      ensures isDestroyed && sprite == RuinsSprite
    {
      isDestroyed := true;
      sprite := RuinsSprite;
    }

    /** `getHitbox()`: the city's own rectangle. A point is inside it
        exactly when it lies strictly between the city's left and right
        edges and strictly between its top and bottom edges. */
    function GetHitbox(): (h: Hitbox)
      ensures forall p: Point :: StrictlyInside(p, h) <==>
                x < p.x < x + CityWidth && y < p.y < y + CityHeight
    {
      Hitbox(x, y, CityWidth, CityHeight)
    }
  }

  class Base {
    const x: real
    const y: real
    var isReloaded: bool

    constructor (x: real, y: real)
      ensures this.x == x && this.y == y && isReloaded
    {
      this.x, this.y := x, y;
      isReloaded := true;
    }

    /** `updateReloadStatus(reloaded)`. */
    method UpdateReloadStatus(reloaded: bool)
      modifies this
      ensures isReloaded == reloaded
    {
      isReloaded := reloaded;
    }
  }
}
